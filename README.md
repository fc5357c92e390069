# mkdocs-behave, modelled in Dafny

mkdocs-behave is a MkDocs plugin that turns behave `.feature` files into documentation
pages. On each build (`on_files`) it does the following:

- It makes sure the configured nav heading exists.
- With `populate`, it builds a tree of every feature file on disk and merges it under that heading. Otherwise it takes the features already listed under the heading and, with `warn_missing`, warns about every feature on disk that is not listed.
- It renames the `.feature` pages under the heading to `.md` pages.
- It warns when `.feature` pages remain anywhere else in the nav.
- It adds one virtual `.md` file per active feature, with a directory-style destination URL.

When MkDocs later reads such a page (`on_page_read_source`), the plugin returns the markdown that its behave formatter rendered for the feature.

The formatter (`FeatureFormatter`) writes one markdown page per feature file:

- a comment naming the file;
- the title, a tag note and the description, with its protecting dots removed;
- an optional background;
- the scenarios, with their steps. Quoted step text is shown as inline code, and step text goes in a fenced code block. The block's language is that of the first highlight pattern matching the step name.
- the example tables of scenario outlines.

The model has one module per concern:

- `Wrappers`: Option and Result.
- `Strings`: the Python string operations used.
- `Paths`: `pathlib` parts, names, suffixes, destination URLs and path order.
- `NavTree`: the nav as a tree of `Leaf(path)` and `Group(name, children)`, and the pure functions the plugin's operations compute.
- `NavShape`, `MergeProperties`, `BuildProperties` and `RenameProperties`: what merge, build and collect/rename promise.
- `Plugin`: the configuration, one `on_files` pass as a function, and the class `BehavePlugin`. Its methods carry the loops and recursion of the source, and each is proved equal to the pure function.
- `PluginProperties`: what one pass promises.
- `FeatureText`: the markdown lines that each formatter method writes.
- `FeatureFormat`: the class `FeatureFormatter`, whose output buffer and `rendered_features` map are fields that its methods update.
- `FormatProperties`: what the written markdown means.

Examples without a name: at `featureformatter.py:85` the conditional expression binds more loosely than `+`. An examples table without a name is therefore preceded by an empty line, not by a bare `#### Examples` heading. The model follows the code (`FeatureText.ExamplesHeading`, `FormatProperties.ExamplesHeadingNamesTable`).

## Model

| member | source | states |
|---|---|---|
| Strings.IndexOf | mkdocs_behave/featureformatter.py:99 | the index found is the first occurrence of the character, and none is returned exactly when the character does not occur |
| Strings.Split | mkdocs_behave/plugin.py:91 | `str.split` gives at least one part and no part holds the separator |
| Strings.SplitJoin | mkdocs_behave/featureformatter.py:86 | splitting a join on a separator that no item holds gives the items back |
| Strings.CountAppend | mkdocs_behave/featureformatter.py:87 | the occurrences of a character in a concatenation are those of both halves |
| Paths.Parts | mkdocs_behave/plugin.py:91 | a path has at least one part |
| Paths.GroupParts | mkdocs_behave/plugin.py:91 | the groups of a feature are the directories strictly between the features root and the file, and none for a file at or directly under the root |
| Paths.FeatureToMd | mkdocs_behave/plugin.py:109 | the `.md` path of a feature ends in `.md`, not in `.feature`, and keeps everything before the suffix |
| Paths.MdToFeature | mkdocs_behave/plugin.py:226 | the `.feature` path of a page ends in `.feature`, not in `.md`, and keeps everything before the suffix |
| Paths.FeatureToMdToFeature | mkdocs_behave/plugin.py:215-227 | a feature is found again from its handled `.md` page |
| Paths.MdToFeatureToMd | mkdocs_behave/plugin.py:225-226 | a page name ending in `.md` is the `.md` image of the feature it is looked up under |
| Paths.FeatureToMdInjective | mkdocs_behave/plugin.py:109 | two features never get the same `.md` path |
| Paths.JoinSplit | mkdocs_behave/plugin.py:91 | the parts of a path joined by `/` are the path |
| Paths.PathIsParentAndName | mkdocs_behave/plugin.py:113 | a path is its parent's parts and its name joined by `/` |
| Paths.PathEndsWithName | mkdocs_behave/plugin.py:113 | a path ends with its name, and the name holds no `/` |
| Paths.NameIsFeature | mkdocs_behave/plugin.py:113 | the name of a feature path itself ends in `.feature` |
| Paths.DestUriKeepsDirectoryAndStem | mkdocs_behave/plugin.py:113 | the destination URL is the feature path without `.feature`, followed by `/index.html` |
| Paths.DestUriInjective | mkdocs_behave/plugin.py:113 | two features never share a destination URL |
| PluginProperties.EnsureFeaturesEntryTwice | mkdocs_behave/plugin.py:175-184 | making sure of the heading a second time adds nothing and finds the same group |
| NavTree.FindGroup | mkdocs_behave/plugin.py:177-179 | the index found is the first group with the name; none is found exactly when no group has it |
| NavTree.EnsureGroup | mkdocs_behave/plugin.py:175-184 | the result holds a group with the name at the index returned, which it finds first; an existing first group is kept in place, otherwise a new empty group is appended at the end |
| NavTree.Capitalize | mkdocs_behave/plugin.py:130 | `capitalize` keeps the length, upper-cases the first character and lower-cases the rest |
| NavTree.UnderscoresToSpaces | mkdocs_behave/plugin.py:130 | every underscore becomes a space and every other character is kept |
| NavTree.NormaliseIdempotent | mkdocs_behave/plugin.py:130 | a normalised group name holds no underscore and normalises to itself |
| NavShape.EmbedsReflexive | mkdocs_behave/plugin.py:121-141 | every nav is a prefix-wise copy of itself |
| NavShape.EmbedsTransitive | mkdocs_behave/plugin.py:121-141 | keeping the existing entries is preserved along several merge steps |
| NavShape.EmbedsAppend | mkdocs_behave/plugin.py:127 | appending entries keeps every existing entry in place |
| NavShape.EmbedsUpdate | mkdocs_behave/plugin.py:139 | growing one group's children keeps every existing entry in place |
| NavShape.FindGroupEmbeds | mkdocs_behave/plugin.py:131-133 | a group found in a nav is still the first of its name once entries have been appended |
| NavShape.LeafEmbeds | mkdocs_behave/plugin.py:126 | a page present in a nav stays present however the nav grows |
| MergeProperties.MergedKeepsExisting | mkdocs_behave/plugin.py:121-141 | merging removes, renames and reorders no existing entry; it only appends, at every level |
| MergeProperties.CoversEmbeds | mkdocs_behave/plugin.py:121-141 | a nav that holds all of a source keeps holding it as entries are appended |
| MergeProperties.LeafStepCovers | mkdocs_behave/plugin.py:125-127 | after a page step, the nav holds that page and all earlier source entries |
| MergeProperties.GroupStep | mkdocs_behave/plugin.py:129-139 | a group step keeps the nav's entries, finds the group at the index it used, and leaves the merged children there |
| MergeProperties.GroupStepCovers | mkdocs_behave/plugin.py:129-139 | after a group step, the nav holds that group's merged children and all earlier source entries |
| MergeProperties.MergedCoversSource | mkdocs_behave/plugin.py:121-141 | after merging, every source page is on its level and every source group has its normalised group, holding its children |
| MergeProperties.MergeCoveredIsIdentity | mkdocs_behave/plugin.py:121-141 | merging a source the nav already holds changes nothing |
| MergeProperties.MergedIdempotent | mkdocs_behave/plugin.py:121-141 | merging the same feature tree a second time leaves the nav as it is |
| MergeProperties.MergedAppendsOnlyNew | mkdocs_behave/plugin.py:126-137 | the merge never shortens a level, and everything appended is a source page not yet there or a group with a name new to the level |
| MergeProperties.NoDuplicatesAppendLeaf | mkdocs_behave/plugin.py:126-127 | appending a page that is not there introduces no duplicate |
| MergeProperties.NoDuplicatesAppendGroup | mkdocs_behave/plugin.py:134-136 | appending a group whose name is new introduces no duplicate |
| MergeProperties.NoDuplicatesUpdate | mkdocs_behave/plugin.py:139 | merging into one group's children keeps the level free of duplicates |
| MergeProperties.MergedNoDuplicates | mkdocs_behave/plugin.py:121-141 | merging into a nav without duplicate pages or group names keeps it so, whatever the source holds |
| MergeProperties.EntryLeavesIn | mkdocs_behave/plugin.py:148-155 | the pages below an entry are pages of its level |
| MergeProperties.CoversLeaves | mkdocs_behave/plugin.py:121-141 | every page of the source is a page of the merged nav |
| BuildProperties.LevelOfEmpty | mkdocs_behave/plugin.py:88 | the empty tree has no pages and no groups on any level |
| BuildProperties.LevelAppendLeaf | mkdocs_behave/plugin.py:97 | appending a page adds it to the pages of its own level and changes no other level |
| BuildProperties.EnsureGroupTop | mkdocs_behave/plugin.py:92-95 | finding or adding a group keeps the level's pages, and adds the group's name only when it is new |
| BuildProperties.InsertLevelPages | mkdocs_behave/plugin.py:89-97 | inserting a path adds it to the end of its own directory's level and to no other level |
| BuildProperties.BuildLevelPages | mkdocs_behave/plugin.py:86-98 | each level of the built tree holds exactly the paths of its directory, in input order |
| BuildProperties.BuildPlacesEveryPath | mkdocs_behave/plugin.py:86-98 | every input path is a page of the level of its directories |
| BuildProperties.InsertLevelGroupNames | mkdocs_behave/plugin.py:91-96 | inserting a path appends a group to a level only when the path needs it there and the level lacks it |
| BuildProperties.BuildLevelGroupNames | mkdocs_behave/plugin.py:86-98 | each level's groups are the directories needed below it, each once, in the order of first need |
| BuildProperties.InsertUniqueGroups | mkdocs_behave/plugin.py:91-96 | inserting a path never creates a second group with the same name on a level |
| BuildProperties.BuildUniqueGroups | mkdocs_behave/plugin.py:86-98 | the built tree has no two groups of the same name on any level |
| BuildProperties.AllLeavesReplaced | mkdocs_behave/plugin.py:96-97 | growing one group's pages grows its level's pages by the same multiset |
| BuildProperties.InsertAllLeaves | mkdocs_behave/plugin.py:89-97 | inserting a path adds exactly that one page to the tree |
| BuildProperties.BuildKeepsEveryPath | mkdocs_behave/plugin.py:86-98 | the pages of the built tree are the input paths, each as often as given: none lost, none made up |
| RenameProperties.Features | mkdocs_behave/plugin.py:151 | a path is kept exactly when it is one of the input paths and ends in `.feature` |
| RenameProperties.FeaturesAppend | mkdocs_behave/plugin.py:148-155 | the `.feature` pages of two lists in a row are those of each list in a row |
| RenameProperties.FeaturePathsAreFeaturePages | mkdocs_behave/plugin.py:144-158 | the collected paths are exactly the `.feature` pages of the nav, depth first, in nav order |
| RenameProperties.RenamedShape | mkdocs_behave/plugin.py:163-170 | renaming keeps each level's length and renames each entry in its place |
| RenameProperties.RenamedFindGroup | mkdocs_behave/plugin.py:168-170 | renaming keeps every group where it was, so every group name finds the same group |
| RenameProperties.RenamedPages | mkdocs_behave/plugin.py:161-172 | the pages after renaming are the pages before, each `.feature` page turned into its `.md` page and every other page kept, in the same order |
| RenameProperties.RenamedHasNoFeatures | mkdocs_behave/plugin.py:161-172 | no `.feature` page is left after renaming |
| RenameProperties.RenamedWithoutFeatures | mkdocs_behave/plugin.py:161-172 | a nav without `.feature` pages is left as it is |
| RenameProperties.RenamedIdempotent | mkdocs_behave/plugin.py:161-172 | renaming twice is renaming once |
| RenameProperties.NoFeaturesEntrywise | mkdocs_behave/plugin.py:211 | a nav has no `.feature` page exactly when none of its entries has one |
| Plugin.Missing | mkdocs_behave/plugin.py:205 | a path is missing exactly when it is on disk and not active |
| Plugin.MissingWarnings | mkdocs_behave/plugin.py:205-208 | one warning naming each missing path, in order |
| Plugin.FeatureFiles | mkdocs_behave/plugin.py:101-118 | one file per active feature, in order, with the feature's `.md` path and destination URL |
| Plugin.Handled | mkdocs_behave/plugin.py:215 | every handled page ends in `.md` and is the image of an active feature, and every active feature's `.md` page is handled |
| Plugin.FeaturePathsAreFeatures | mkdocs_behave/plugin.py:151 | every collected nav path ends in `.feature` |
| Plugin.Selected | mkdocs_behave/plugin.py:198-208 | the heading's part of the pass leaves only `.feature` paths active |
| Plugin.FilesPass | mkdocs_behave/plugin.py:186-220 | one pass leaves only `.feature` paths active |
| Plugin.BehavePlugin.constructor | mkdocs_behave/plugin.py:35-47 | a new plugin has its configuration and no handled page yet |
| Plugin.BehavePlugin.FindEntry | mkdocs_behave/plugin.py:177-179 | the loop finds the first group with the name, or none |
| Plugin.BehavePlugin.EnsureFeaturesEntry | mkdocs_behave/plugin.py:175-184 | the nav and index of the heading's group, found first or appended |
| Plugin.BehavePlugin.BuildFeatureTree | mkdocs_behave/plugin.py:86-98 | the loop builds the feature tree of the paths |
| Plugin.BehavePlugin.AddUnder | mkdocs_behave/plugin.py:90-97 | the walk down `working_tree` appends the path under its groups, creating each missing group at the end of its level |
| Plugin.BehavePlugin.MergeFeaturesIntoNav | mkdocs_behave/plugin.py:121-141 | the loop and recursion of `merge` compute the merged nav |
| Plugin.BehavePlugin.GetFeaturePathsInNav | mkdocs_behave/plugin.py:144-158 | the `.feature` pages of the nav, depth first |
| Plugin.BehavePlugin.CollectFeatures | mkdocs_behave/plugin.py:148-155 | `find` appends the level's `.feature` pages, depth first, to what was collected before |
| Plugin.BehavePlugin.RenameFeaturesInNav | mkdocs_behave/plugin.py:161-172 | `process` renames each `.feature` page in its place, the rest of the level untouched so far |
| Plugin.BehavePlugin.SelectFeatures | mkdocs_behave/plugin.py:198-208 | the populate branch or the listed-features branch, with its warnings |
| Plugin.BehavePlugin.WarnMissing | mkdocs_behave/plugin.py:204-208 | one warning per feature on disk that is not active, in disk order |
| Plugin.BehavePlugin.AddFeatureFiles | mkdocs_behave/plugin.py:214-218 | the existing files followed by one virtual file per active feature |
| Plugin.BehavePlugin.OnFiles | mkdocs_behave/plugin.py:186-220 | the new nav, the warnings logged, the files with the virtual files appended, and the handled pages are those of one pass |
| Plugin.BehavePlugin.OnPageReadSource | mkdocs_behave/plugin.py:222-229 | a handled page's source is the markdown rendered for its feature (a key error when none was); any other page is left to MkDocs |
| PluginProperties.HeadingEntry | mkdocs_behave/plugin.py:177-184 | the heading's entries before the pass are those of its first group, or none when it is missing |
| PluginProperties.StrLessIrreflexive | mkdocs_behave/plugin.py:196 | no string sorts before itself |
| PluginProperties.PartsLessIrreflexive | mkdocs_behave/plugin.py:196 | no path sorts before itself |
| PluginProperties.StrictlySortedDistinct | mkdocs_behave/plugin.py:196 | the sorted disk listing has no repeats |
| PluginProperties.MissingSorted | mkdocs_behave/plugin.py:205 | the missing features come out in sorted order |
| PluginProperties.MissingWarningInjective | mkdocs_behave/plugin.py:206-208 | different features get different missing warnings |
| PluginProperties.MissingWarningIsNotOutsideWarning | mkdocs_behave/plugin.py:206-212 | a missing warning is never the outside-the-heading warning |
| PluginProperties.InMissingWarnings | mkdocs_behave/plugin.py:205-208 | a feature is warned about exactly when it is in the list, and the outside warning is not among these |
| PluginProperties.PassWarnings | mkdocs_behave/plugin.py:204-212 | the warnings are the missing warnings (only with `populate` off and `warn_missing` on), then the outside warning when `.feature` pages remain |
| PluginProperties.WarningsOfMissing | mkdocs_behave/plugin.py:204-212 | in such warnings a feature is named exactly when missing, the missing ones come first, and the outside warning occurs exactly when due |
| PluginProperties.WarnsExactlyMissing | mkdocs_behave/plugin.py:196-208 | a feature is warned about as missing exactly when `populate` is off, `warn_missing` is on, it is on disk and the heading does not list it; those warnings come first, in sorted order |
| PluginProperties.HeadingRenamed | mkdocs_behave/plugin.py:193-210 | after the pass the heading's group is found where it was made sure of, holds no `.feature` page, and every other nav entry is as it was |
| PluginProperties.FeaturesOutsideHeading | mkdocs_behave/plugin.py:210-211 | with the heading cleared of `.feature` pages, the nav has one exactly when another entry has one |
| PluginProperties.OutsideWarningIff | mkdocs_behave/plugin.py:210-212 | the outside-the-heading warning is logged exactly when some other entry of the nav holds a `.feature` page |
| PluginProperties.PopulateListsEveryFeature | mkdocs_behave/plugin.py:198-210 | with `populate`, every feature on disk is listed under the heading as its `.md` page |
| PluginProperties.PopulateKeepsHeadingEntries | mkdocs_behave/plugin.py:198-210 | with `populate`, the entries the heading already had stay in place, renamed |
| PluginProperties.RenamedEmbeds | mkdocs_behave/plugin.py:161-172 | renaming both navs keeps one embedded in the other |
| PluginProperties.FeatureFilesDistinct | mkdocs_behave/plugin.py:107-117 | distinct features give files with distinct paths and distinct destination URLs |
| PluginProperties.PopulateFilesDistinct | mkdocs_behave/plugin.py:196-214 | with `populate`, no two added files share a path or a destination URL |
| PluginProperties.AddedFileServed | mkdocs_behave/plugin.py:214-227 | each added file is handled, and reading it gives its feature's rendered markdown or a key error naming the feature |
| PluginProperties.PageSourceOfHandled | mkdocs_behave/plugin.py:215-229 | a page is left to MkDocs exactly when it is no active feature's `.md` page; otherwise it is looked up under that feature |
| FeatureText.StripDots | mkdocs_behave/featureformatter.py:16-18 | a lone dot becomes empty, a `. ` prefix is removed, and every other line is kept |
| FeatureText.FirstMatch | mkdocs_behave/featureformatter.py:92-96 | the index found is that of the first highlight pattern that matches; none is found exactly when none matches |
| FeatureText.AtTags | mkdocs_behave/featureformatter.py:51 | each tag with an `@` before it, in order |
| FeatureText.Backticked | mkdocs_behave/featureformatter.py:89 | each cell in backticks, in order |
| FeatureText.RowsLines | mkdocs_behave/featureformatter.py:88-89 | one row line per table row, in order |
| FeatureText.UnlinesSnoc | mkdocs_behave/featureformatter.py:40-107 | writing one more line appends it and a newline to the output |
| FeatureText.UnlinesAppend | mkdocs_behave/featureformatter.py:40-107 | writing two groups of lines in a row writes all of them |
| FeatureText.StepsLinesPrefix | mkdocs_behave/featureformatter.py:69-80 | one more step adds its lines after those of the earlier steps |
| FeatureFormat.FeatureFormatter.constructor | mkdocs_behave/featureformatter.py:24-35 | a new formatter has its highlight patterns and an empty output and map |
| FeatureFormat.FeatureFormatter.WriteLine | mkdocs_behave/featureformatter.py:40-107 | one `write` appends the line and a newline to the output |
| FeatureFormat.FeatureFormatter.Uri | mkdocs_behave/featureformatter.py:37-41 | a page is started: the file name is stored and the output is the comment naming the file and a blank line |
| FeatureFormat.FeatureFormatter.Eof | mkdocs_behave/featureformatter.py:43-45 | the page written is stored under the file name, and every other rendered page is kept |
| FeatureFormat.FeatureFormatter.WriteTags | mkdocs_behave/featureformatter.py:49-52 | the tag note is written only when there are tags |
| FeatureFormat.FeatureFormatter.Feature | mkdocs_behave/featureformatter.py:47-64 | the output grows by the title, tag note, description, optional background, the scenarios heading and each scenario |
| FeatureFormat.FeatureFormatter.FeatureHead | mkdocs_behave/featureformatter.py:48-56 | the output grows by the title, tag note, stripped description and a blank line |
| FeatureFormat.FeatureFormatter.WriteLines | mkdocs_behave/featureformatter.py:54-55 | the output grows by each description line in order |
| FeatureFormat.FeatureFormatter.FormatScenarios | mkdocs_behave/featureformatter.py:63-64 | the output grows by each scenario in order |
| FeatureFormat.FeatureFormatter.FormatBackground | mkdocs_behave/featureformatter.py:66-70 | the output grows by the background heading, a blank line and its steps |
| FeatureFormat.FeatureFormatter.FormatSteps | mkdocs_behave/featureformatter.py:69-80 | the output grows by each step in order |
| FeatureFormat.FeatureFormatter.FormatScenario | mkdocs_behave/featureformatter.py:72-90 | the output grows by the scenario heading, tag note, steps, a blank line and, for an outline only, its example tables |
| FeatureFormat.FeatureFormatter.FormatAllExamples | mkdocs_behave/featureformatter.py:84-90 | the output grows by each examples table in order |
| FeatureFormat.FeatureFormatter.FormatExamples | mkdocs_behave/featureformatter.py:85-90 | the output grows by the table's first line, header row, separator, rows and a blank line |
| FeatureFormat.FeatureFormatter.WriteRows | mkdocs_behave/featureformatter.py:88-89 | the output grows by one line per row |
| FeatureFormat.FeatureFormatter.GuessCodeLanguage | mkdocs_behave/featureformatter.py:92-96 | the language of the first matching highlight pattern, or empty when none matches |
| FeatureFormat.FeatureFormatter.FormatStep | mkdocs_behave/featureformatter.py:98-107 | the output grows by the step line and, when the step has text, its fenced code block |
| FeatureFormat.FeatureFormatter.WriteTextBlock | mkdocs_behave/featureformatter.py:104-107 | the output grows by a blank line, the opening fence with the language, the text and the closing fence |
| FormatProperties.Protected | mkdocs_behave/featureformatter.py:16-18 | each line with `. ` before it |
| FormatProperties.StripDotsProtected | mkdocs_behave/featureformatter.py:16-18 | protecting lines with `. ` and stripping the dots gives the lines back |
| FormatProperties.StripDotsKeepsUndotted | mkdocs_behave/featureformatter.py:16-18 | lines that do not start with a dot are left as they are |
| FormatProperties.QuoteAsCodeNoQuotes | mkdocs_behave/featureformatter.py:99 | a step name without double quotes is unchanged |
| FormatProperties.QuoteAsCodeOther | mkdocs_behave/featureformatter.py:99 | text outside quotes is copied as it is |
| FormatProperties.QuoteAsCodeQuoted | mkdocs_behave/featureformatter.py:99 | a quoted piece gets backticks inside its quotes, and the rest is rewritten in turn |
| FormatProperties.QuoteAsCodeUnclosed | mkdocs_behave/featureformatter.py:99 | a quote with no closing quote after it leaves the rest of the name as it is |
| FormatProperties.UnquoteQuoteAsCode | mkdocs_behave/featureformatter.py:99 | reading the inline code back gives the original step name, so the rewrite loses nothing |
| FormatProperties.UnquoteQuoted | mkdocs_behave/featureformatter.py:99 | inline code in quotes reads back as the quoted text |
| FormatProperties.QuoteAsCodeCountsQuotes | mkdocs_behave/featureformatter.py:99 | the rewrite adds no double quote and removes none |
| FormatProperties.QuotedCounts | mkdocs_behave/featureformatter.py:99 | a quoted piece holds exactly two quotes before and after the rewrite |
| FormatProperties.CodeLanguageIsFirstMatch | mkdocs_behave/featureformatter.py:92-96 | the block language is that of the first pattern matching the step name, and empty when none matches |
| FormatProperties.JoinSnoc | mkdocs_behave/featureformatter.py:86 | joining one more item adds the separator and the item at the end |
| FormatProperties.Bars | mkdocs_behave/featureformatter.py:86 | a row between bars is a bar-join with an empty cell at each end |
| FormatProperties.HeaderRowSplits | mkdocs_behave/featureformatter.py:86 | the header row splits on its bars back into the headings, between two empty ends |
| FormatProperties.CellsRowSplits | mkdocs_behave/featureformatter.py:89 | a table row splits on its bars back into its cells, each in backticks |
| FormatProperties.SeparatorBars | mkdocs_behave/featureformatter.py:87 | the separator row for n columns holds n + 1 bars |
| FormatProperties.JoinBars | mkdocs_behave/featureformatter.py:86 | joining bar-free items puts one bar between each two |
| FormatProperties.CountOfFree | mkdocs_behave/featureformatter.py:86 | text without the character holds none of it |
| FormatProperties.SeparatorMatchesHeader | mkdocs_behave/featureformatter.py:86-87 | the separator row has exactly as many columns as the header row |
| FormatProperties.TagLineSplits | mkdocs_behave/featureformatter.py:49-52 | the tag note is three lines, and its indented line splits on spaces back into the tags, each with `@` |
| FormatProperties.ExamplesHeadingNamesTable | mkdocs_behave/featureformatter.py:85 | the line before a table is empty exactly when the table has no name, and otherwise names it after `#### Examples: ` |
| FormatProperties.UnlinesIsJoin | mkdocs_behave/featureformatter.py:40-107 | the page is its lines joined by newlines, with a final newline |
| FormatProperties.UnlinesSplits | mkdocs_behave/featureformatter.py:40-107 | a page whose lines hold no newline splits back into exactly those lines |

## Left out

- `_run_behave`, `on_startup` and the behave run itself (plugin.py:49-51, 61-83): these run an external program in-process. The formatter's methods are modelled as behave calls them: `uri`, `feature`, then `eof` per file.
- `on_config` (plugin.py:53-59): compiling the regular expressions and watching the features directory. The compiled patterns are the formatter's `highlights` constant. A regular-expression search is the abstract `matches` parameter.
- Configuration validation and `features_dir` (plugin.py:35-40, 195): the existence check and the `relative_to(Path.cwd())` call depend on the file system.
- The disk listing (plugin.py:196): `rglob` is not modelled. `OnFiles` takes the listing as the `disk` parameter. The properties that rely on `sorted` assume it to be strictly sorted in path order.
- `Plugin.MissingWarnings`: the warnings are returned as strings rather than written to the log.
- Logging the failed behave run (plugin.py:79-81) is part of `_run_behave` and is left out.
- MkDocs `File` objects and `Files` (plugin.py:101-118, 217-218): only path and destination URL are kept. `src_dir`, `dest_dir`, `use_directory_urls` and the inclusion level are constants of the source and carry no logic here.
- Paths are normalised relative POSIX paths: no empty or `.` part and no trailing `/`. Path operations work on strings under that assumption. `pathlib`'s own normalisation, and a feature file named exactly `.feature` (which `with_suffix` treats differently), are not modelled.
- `NavTree.Capitalize`: models `str.capitalize` on ASCII letters only. Other characters are kept unchanged, while Python also changes the case of non-ASCII letters.
- The nav as MkDocs allows it beyond plain pages and single-key groups: titled pages (`{title: page}`), groups with several keys, and a nav of `None` are not modelled. A group is a `Group(name, children)` and a page a `Leaf(path)`.
- Aliasing of the nav's sub-lists: `working_tree`, `features_entry` and `sub_nav_entry` in the source. Each call returns its new level and the caller writes it back into its parent. The model returns the whole new nav rather than mutating MkDocs' configuration in place.
- Truthiness of behave objects: a feature's background is an `Option`, and a step without text has the empty string as its `text`.
- The `StringIO` buffer: it is a string field. The `close` after `eof`, and calls made before `uri` (when `_filename` and `_output` are unset), are not modelled.
- `rendered_features` and `_step_highlight_regexes` are class attributes shared by every instance of the class. Here they are fields of one formatter. `__init_subclass__` (featureformatter.py:30-35) becomes the constructor's parameters.
- `on_page_read_source` receives the rendered pages as a parameter, because in the source they live on the formatter class.
- `GroupParts` follows `parent.parts[1:]` as written: when the features directory is nested more than one level deep, its inner directories become groups.

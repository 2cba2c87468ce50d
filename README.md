# valkey-container description scripts, modelled in Dafny

The valkey-container repository publishes its image descriptions from two Python
scripts:

- `generate-repo-description.py` turns the build matrix (a JSON file) into the
  Docker Hub description. Each matrix entry gives a bullet line that links its
  tags to the entry's Dockerfile. The lines are sorted into official releases,
  release candidates and the latest unstable build, and each group becomes a
  block of the description. The same script then splits the description into
  the "about" and "usage" texts of the ECR gallery (`parse_ecr_content`).
- `create-ecr-description.py` does that split again, as top-level script code,
  on a markdown file given on the command line.

The split runs in three stages, and the model follows them:

1. Underlined headings become `## <title>` headings. This is a title line,
   optional whitespace-only lines, then a line of three or more hyphens.
2. The text is cut at every line that starts with `# `. The text before the
   first cut is the preamble. Every later piece is a title line and a body, and
   goes into an insertion-ordered dictionary. A body holding
   `## Latest unstable` is cut there, and the part after the marker is filed
   under `Latest unstable`.
3. The preamble opens "about" once `##` and the whitespace after it are removed
   at its line starts. Each dictionary entry is rendered as a heading and its
   body. It goes to "usage" when its title is `How to use this image` or
   `Image Variants`, and to "about" otherwise. Both texts are stripped.

Modules:

- `PyStrings`: Python's `str` operations used by the scripts (`isspace`,
  `strip`, `in`, `partition`, `join`). `IndexOf` is the first occurrence behind
  `in` and `partition`, and `SplitChar` splits at a character; it is there to
  state that splitting at line feeds gives back the lines of a block.
- `OrderedDict`: `dict` assignment, with its insertion order.
- `HeadingNormalizer`: the `re.sub` of the underlined-heading pattern, as a
  line-by-line scanner.
- `SectionSplitter`: `re.split(r"(?m)^# ")`, the per-section writes, and the
  dictionary they build.
- `SectionRouter`: the preamble clean-up and the routing of sections to "about"
  and "usage".
- `RepoDescription`: `clean_tag`, `format_tag_line`, the loop and blocks of
  `process_template`, and `parse_ecr_content`.
- `EcrDescriptionScript`: the body of `create-ecr-description.py`, as methods
  with loops. They are proved to compute exactly what `parse_ecr_content`
  computes.

Both loops of the script are methods whose postconditions tie the new values
to the specification functions (`BuildParsed`, `Route`). The classification
loop of `process_template` is a method too, proved against `Collect`, a fold
that stops at the first failure. The regular expressions are modelled as
explicit scanners, and they keep these quirks of the patterns:

- `\s*` in the normaliser spans blank lines between a title and its underline;
- a title line of spaces and tabs only still matches, and captures one
  character;
- `^##\s*` swallows the line feeds that follow, and `^` then matches at the
  next line start of the original text.

## Model

| member | source | states |
|---|---|---|
| RepoDescription.CleanTag | generate-repo-description.py:16-19 | without a `:` the tag is returned unchanged; with one, the result is exactly the text after the first `:` (the tag is a colon-free prefix, `:`, then the result) |
| RepoDescription.CleanTagExample | generate-repo-description.py:16-19 | `8.0-rc1:bookworm` cleans to `bookworm` |
| RepoDescription.CleanTagPlainExample | generate-repo-description.py:16-19 | `bookworm`, which has no `:`, stays `bookworm` |
| RepoDescription.FormatTagLine | generate-repo-description.py:21-39 | the line is produced iff `meta.entries` is non-empty and its first build has non-empty tags and a non-empty directory; otherwise the error is the first failing check, in the order entries, tags, directory |
| RepoDescription.TagLineShape | generate-repo-description.py:27-39 | a produced line starts with ``- [` ``, contains every cleaned tag of the first build between backticks, and ends with the directory followed by `/Dockerfile)` |
| RepoDescription.TagLineStarts | generate-repo-description.py:36-39 | the bullet line opens with ``- [` `` whenever there is a tag |
| RepoDescription.TagLineEnds | generate-repo-description.py:39 | the bullet line ends with the link to the directory's Dockerfile |
| RepoDescription.TagLineMentions | generate-repo-description.py:36-39 | the bullet line contains each tag, cleaned and backticked |
| RepoDescription.TagLineParts | generate-repo-description.py:36-39 | in the bullet line, the `k`-th backticked tag starts at offset `3 + PartOffset(", ", tags, k)`, right after `- [`; `, ` follows it unless it is the last tag, and the last tag is followed by the link and the end of the line |
| RepoDescription.TagLineOrder | generate-repo-description.py:27-39 | the same for a produced line: the `k`-th tag of the first build entry, cleaned and backticked, stands at its exact offset, followed by `, ` or, for the last tag, by the link to the directory's Dockerfile that ends the line; the tags appear in input order |
| RepoDescription.JoinedLineParts | generate-repo-description.py:37-39 | a joined text inside a line keeps its parts and separators at the same offsets, shifted by the length of the text before it |
| RepoDescription.Backticked | generate-repo-description.py:36 | the list comprehension: one entry per tag, in order; BacktickedAt states that entry `k` is the `k`-th tag, cleaned, between backticks, and TagLineOrder places each entry in the line |
| RepoDescription.TagLine | generate-repo-description.py:36-39 | the bullet text itself; stated by TagLineStarts, TagLineEnds, TagLineParts and TagLineMentions |
| RepoDescription.PartOffset | generate-repo-description.py:37 | where `", ".join` places part `k`: the lengths of the parts before it, each with one separator; JoinPartAt states that the part is there |
| RepoDescription.TagLineUsesFirstBuildOnly | generate-repo-description.py:27-39 | two entries that agree on the first build entry get the same result; later build entries are ignored |
| RepoDescription.JoinPartAt | generate-repo-description.py:37 | `sep.join` places part `k` at exactly `PartOffset(sep, parts, k)`; the separator follows it unless it is the last part, which ends the joined text |
| RepoDescription.ChannelOf | generate-repo-description.py:58-63 | which list a name selects; stated, with the order of the two tests, by EntryChannel |
| RepoDescription.EntryLine | generate-repo-description.py:57-58 | one loop step: the entry's line, or the error of `format_tag_line` or of the missing `name`; stated by ClassifyEntries, FirstFailureReported and EntryChannel |
| RepoDescription.ClassifiedOf | generate-repo-description.py:56 | `data["matrix"]["include"]` and the classification of its entries: a missing matrix is reported, then a missing `include`, then the first failing entry; stated by ProcessTemplateBlocks, EntryChannel and ChannelsPartition |
| RepoDescription.ClassifyEntries | generate-repo-description.py:52-63 | the loop fails iff some entry fails, with the first failure's error; on success the three lists are the entries' lines of each channel, in input order |
| RepoDescription.ProcessTemplateBlocks | generate-repo-description.py:52-67 | a missing matrix or `include` list is reported first, then the first failing entry; on success the blocks are built from the classified lines |
| RepoDescription.EntryChannel | generate-repo-description.py:56-63 | after a successful classification, every entry has a valid first build and a name; its line goes to release candidates when the name holds `rc` (even together with `unstable`), to latest unstable when the name holds `unstable` but not `rc`, and to official releases otherwise |
| RepoDescription.ChannelsPartition | generate-repo-description.py:56-63 | every classified line is in exactly one of the three lists (multiset and length equalities) |
| RepoDescription.Collect | generate-repo-description.py:56-57 | a successful run has one value per step |
| RepoDescription.FirstFailureReported | generate-repo-description.py:56-57 | when every earlier entry succeeds and entry `i` fails, entry `i`'s error is the one reported, whatever follows |
| RepoDescription.AllSucceed | generate-repo-description.py:56-63 | when every entry succeeds, the outcome holds each entry's value, in order |
| RepoDescription.CollectValues | generate-repo-description.py:56-63 | a successful run succeeded at every step and holds the steps' values in order |
| RepoDescription.PrefixFailure | generate-repo-description.py:56-57 | once a prefix of the entries fails, the whole run fails with the same error |
| RepoDescription.BlocksOf | generate-repo-description.py:65-67 | the three strings of the template: official lines joined by line feeds, and the release-candidate and unstable blocks; stated by ProcessTemplateBlocks, SectionBlock and BlockLines |
| RepoDescription.SectionBlock | generate-repo-description.py:66-67 | a block is empty iff it has no lines |
| RepoDescription.BlockLines | generate-repo-description.py:66-67 | a non-empty block opens with `\n## <heading>\n`, and splitting the rest at line feeds gives back exactly its lines |
| RepoDescription.ParseEcrContent | generate-repo-description.py:80-137 | both returned texts are stripped: no whitespace at either end |
| RepoDescription.ParseEcrContentSections | generate-repo-description.py:96-137 | "about" is the cleaned preamble followed by every section without a usage title, and "usage" is the sections with one, each in dictionary order; the dictionary holds each title once, in order of first appearance, with the last body written to it |
| RepoDescription.SectionsOf | generate-repo-description.py:91-99 | the pieces after the first, `sections[1:]`, of the split of the normalised text; SplitTopLevelSpec states the split, and ParseEcrContentSections the dictionary built from these pieces |
| RepoDescription.PreambleOf | generate-repo-description.py:94 | the first piece of the split, stripped; SplitTopLevelSpec states that the first piece is the text before the first line-start `# `, and ParseEcrContentSections that "about" starts from it |
| RepoDescription.HeadinglessDescription | generate-repo-description.py:84-137 | a text with no line opening with `# ` gives an empty "usage", and an "about" that is the normalised text, stripped, with `^##\s*` removed at its line starts, stripped again |
| RepoDescription.NormalizeKeepsNoCut | generate-repo-description.py:84-91 | normalising never creates a line opening with `# `: a text without one gives a normalised text without one |
| RepoDescription.WithoutTopLevelHeadings | generate-repo-description.py:91-137 | a normalised text with no line opening with `# ` gives an empty "usage"; "about" is the whole normalised text, stripped, with `^##\s*` removed at its line starts |
| EcrDescriptionScript.CreateEcrDescription | create-ecr-description.py:11-62 | the script's two texts are exactly the two texts `parse_ecr_content` returns for the same input |
| EcrDescriptionScript.FillSections | create-ecr-description.py:23-39 | the section loop builds the dictionary `BuildParsed` specifies |
| EcrDescriptionScript.AssembleTexts | create-ecr-description.py:47-62 | the preamble step and the routing loop build exactly the routed "about" and "usage" texts |
| HeadingNormalizer.MatchUnderlined | create-ecr-description.py:11-15 | a match replaces a prefix ending with a line feed, and captures a non-empty title on one line |
| HeadingNormalizer.CapturedTitle | create-ecr-description.py:12 | the captured group is never empty and never spans lines |
| HeadingNormalizer.UnderlinedHeading | create-ecr-description.py:11-15 | a title line (indented by spaces or tabs, with trailing whitespace), then whitespace-only lines, then an underline of three or more hyphens that may be indented by spaces or tabs, may carry trailing spaces or tabs, and ends with `\n` or `\r\n`: the pattern matches, captures exactly the title, consumes up to the rest, and the scan emits `## <title>\n\n` then goes on with the rest |
| HeadingNormalizer.MatchShape | create-ecr-description.py:11-15 | the converse: every match is a first line with the captured title, whitespace-only text ending at a line feed, an underline of three or more hyphens between blanks ended by `\n` or `\r\n`, and the match consumes exactly up to the text after it |
| HeadingNormalizer.Normalize | create-ecr-description.py:11-15 | the `re.sub` as a scan; stated by UnderlinedHeading, NormalizeWithoutHyphens and NormalizeKeepsNoCut |
| HeadingNormalizer.AfterTitle | create-ecr-description.py:12 | the part of the pattern after the title's line feed: a match ends with a line feed after at least four characters and starts its underline with a hyphen; stated in full by UnderlinedHeading and MatchShape |
| HeadingNormalizer.AfterGap | create-ecr-description.py:12 | the underline part of the pattern, once the whitespace after the title is skipped: a match ends with a line feed and starts with a hyphen |
| HeadingNormalizer.UnderlineLength | create-ecr-description.py:12 | `-{3,}[ \t]*\r?\n` at the start of the text: a match starts with a hyphen and ends with a line feed after at least four characters |
| HeadingNormalizer.LastLineStart | create-ecr-description.py:12 | where the last line of a text starts: zero, or just after a line feed |
| HeadingNormalizer.TwoHyphensAreNoUnderline | create-ecr-description.py:12 | a title line followed directly by `--` and a line feed is not matched, so it is copied through as text |
| HeadingNormalizer.NormalizeWithoutHyphens | create-ecr-description.py:11-15 | text without a hyphen passes through the normaliser unchanged |
| HeadingNormalizer.MatchNeedsHyphen | create-ecr-description.py:12 | a match needs a hyphen in the text |
| HeadingNormalizer.ShortUnderline | create-ecr-description.py:12 | a run of fewer than three hyphens directly after the title line's line feed, with no blank line or indentation before it: no match |
| SectionSplitter.SplitTopLevel | create-ecr-description.py:18 | the split always yields a first piece, the preamble text |
| SectionSplitter.SplitTopLevelSpec | create-ecr-description.py:18 | joining the pieces with `# ` restores the text; each join point is a line-start `# ` of the text; the first piece holds no line-start `# `, and the other pieces none after their first character; `##` never cuts |
| SectionSplitter.SplitFrom | create-ecr-description.py:18 | the scan behind the split: it always yields a piece; stated by SplitFromJoin, SplitFromPieces and SplitFromCuts |
| SectionSplitter.SplitFromCuts | create-ecr-description.py:18 | every point where two pieces are joined is a line-start `# ` of the text |
| SectionSplitter.SplitFromJoin | create-ecr-description.py:18 | the split loses nothing: the `# ` markers put back between the pieces restore the text |
| SectionSplitter.SplitFromPieces | create-ecr-description.py:18 | no piece holds a cut, except possibly at its own first position |
| SectionSplitter.SplitWithoutHeadings | create-ecr-description.py:18 | a text without a line-start `# ` is a single piece |
| SectionSplitter.ChunkWrites | create-ecr-description.py:26-39 | one section makes one or two writes; the title is stripped and on one line; the body under the title is stripped and never holds `## Latest unstable`; a second write goes to `Latest unstable` with a stripped body |
| SectionSplitter.ChunkWithoutNewline | create-ecr-description.py:28-29 | a section with no line feed is its stripped title with an empty body |
| SectionSplitter.ChunkOfLines | create-ecr-description.py:28-39 | the title is the stripped first line; the body is the stripped rest, or, when the rest holds the marker, the stripped texts before and after its first occurrence |
| SectionSplitter.BuildParsed | create-ecr-description.py:23-39 | the dictionary of the section loop; stated by BuildParsedWrites and ParsedSections, and built by FillSections |
| SectionSplitter.BuildParsedWrites | create-ecr-description.py:26-39 | the dictionary is all the sections' writes carried out in order on an empty one |
| SectionSplitter.ParsedSections | create-ecr-description.py:23-39 | the dictionary's keys are the written titles in order of first appearance, each once, and every title reads back the last body written to it |
| OrderedDict.Upsert | create-ecr-description.py:35-39 | assigning keeps an existing key in place, appends a new one, makes the key read back the new value, leaves every other key's value alone, and keeps keys distinct |
| OrderedDict.UpsertAllFromEmpty | create-ecr-description.py:23-39 | assignments to an empty dictionary leave its keys in order of first write, each once, and each key reads back its last written value |
| OrderedDict.UpsertAllAppend | create-ecr-description.py:26-39 | carrying out two runs of assignments one after the other equals carrying out their concatenation |
| OrderedDict.DedupProperties | create-ecr-description.py:23-39 | the ordered keys are exactly the written keys, without repeats |
| OrderedDict.FindKey | create-ecr-description.py:35-39 | the key is found iff present, at its first index |
| OrderedDict.Get | create-ecr-description.py:56 | a key reads a value iff it is one of the dictionary's keys |
| SectionRouter.SeedAbout | create-ecr-description.py:51-53 | "about" starts empty iff the preamble is empty |
| SectionRouter.StripMarks | create-ecr-description.py:52 | removing marks never lengthens the text |
| SectionRouter.StripMarksWithoutMarks | create-ecr-description.py:52 | a text with no line opening with `##` is unchanged |
| SectionRouter.StripMarksLine | create-ecr-description.py:52 | a line not opening with `##` is copied, and the next line starts afresh |
| SectionRouter.StripMarksAtMark | create-ecr-description.py:52 | `##` at a line start goes together with all the whitespace after it, line feeds included; the text after a swallowed line feed is again at a line start |
| SectionRouter.RouteFilters | create-ecr-description.py:55-62 | "about" is the seed followed by the rendered entries without a usage title, "usage" the rendered entries with one, both in dictionary order |
| SectionRouter.Route | create-ecr-description.py:55-62 | the routing loop as a fold; stated by RouteFilters and EntriesPartition, and built by AssembleTexts |
| SectionRouter.HeadingPrefix | create-ecr-description.py:57 | `##` for `Latest unstable` and `#` for every other title; stated by SectionHeadingLevel, on the rendered heading |
| SectionRouter.IsUsageTitle | create-ecr-description.py:42-45 | membership in the two usage titles, `How to use this image` and `Image Variants`, tested as at line 59; EntriesPartition and RouteFilters state that it alone decides between "usage" and "about" |
| SectionRouter.RenderSection | create-ecr-description.py:57-62 | one rendered section; stated by SectionHeadingLevel and UsageHeadings |
| SectionRouter.RenderAllAppend | create-ecr-description.py:55-62 | rendering two runs of entries one after the other gives the rendering of their concatenation, so each entry's section is written on its own, independent of the others |
| SectionRouter.RouteNoSections | create-ecr-description.py:50-53 | with no sections, "usage" strips to empty and "about" to the cleaned preamble |
| SectionRouter.EntriesPartition | create-ecr-description.py:56-62 | every entry goes to exactly one side: usage titles only to usage, all other titles only to about |
| SectionRouter.SectionHeadingLevel | create-ecr-description.py:57-62 | a section heading is of level two exactly when the title is `Latest unstable`, and of level one otherwise |
| SectionRouter.UsageHeadings | create-ecr-description.py:57-60 | every section written to "usage" opens with `# ` |
| PyStrings.Strip | create-ecr-description.py:29 | `strip()` leaves no whitespace at either end and never lengthens |
| PyStrings.StripTrailingSpace | create-ecr-description.py:53 | trailing whitespace (the `\n\n` after the preamble) makes no difference once stripped |
| PyStrings.Partition | create-ecr-description.py:28 | when the separator occurs, the three parts rebuild the text and the first holds no separator; otherwise the text comes back whole |
| PyStrings.IsSpace | create-ecr-description.py:29 | Python's whitespace; the hyphen is not whitespace, and Strip leaves none at either end |
| PyStrings.Contains | create-ecr-description.py:31 | the `in` test on strings: it holds when the text occurs at some index (OccursContains), and for one character it is membership (ContainsChar) |
| PyStrings.OccursContains | create-ecr-description.py:31 | an occurrence at any index makes `in` hold |
| PyStrings.ContainsChar | generate-repo-description.py:17 | `in` with a one-character text is character membership |
| PyStrings.Join | generate-repo-description.py:37 | `str.join`; stated by JoinPartAt and SplitJoin |
| PyStrings.SplitJoin | generate-repo-description.py:66-67 | splitting at a character undoes joining with it when no part holds that character |

## Left out

- Reading and writing files: the `GITHUB_ENV` append, `json.dumps` of the two
  texts, `print` and `logging`. They are I/O, and the model starts from the text
  read and ends with the two texts.
- `json.load` and its decode error. A matrix entry is a datatype with optional
  fields, and an absent key and a JSON `null` are both `None`.
- A `meta` that is present but `null` makes `entry.get("meta", {}).get(...)`
  raise `AttributeError`. The model treats it as missing entries.
- A JSON `null` for `matrix`, `include` or `name` makes the source raise
  `TypeError`, from `None["include"]`, `for entry in None` or `"rc" in None`.
  It does not raise `KeyError`. The model reports these cases as
  `MissingMatrix`, `MissingInclude` and `MissingName`, like an absent key.
- Values of other JSON types where strings or lists are expected are not
  modelled. Examples: a numeric tag or directory, or a non-string name.
- `template_content.format(...)` and `datetime.now()`. The template file is not
  part of this model, and the clock is ambient state. The model stops at the
  three block strings handed to the template.
- `update_docker_description` and the `__main__` block. These are `sys.argv`,
  `sys.exit` and the mapping from exceptions to exit codes. A raised `KeyError`
  becomes an `Err` result.
- Regular-expression engines in general. Each of the three patterns is modelled
  by a scanner written for that pattern.
- HeadingNormalizer.UnderlinedHeading: states the match and one step of the
  scan, not a closed form for the whole normalised text. The text left after a
  match is handled again by the same lemma or by NormalizeWithoutHyphens.
- RepoDescription.WithoutTopLevelHeadings: requires that the normalised text has
  no line opening with `# `. Normalising can remove such a line, because an
  underlined `# x` becomes `## # x`.
- RepoDescription.ParseEcrContent: its own contract only states that both texts
  are stripped. What the texts hold is stated by ParseEcrContentSections and
  WithoutTopLevelHeadings.

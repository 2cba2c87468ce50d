/**
 create-ecr-description.py: the script that turns the repository's markdown
 description into the "about" and "usage" texts of the ECR gallery. It is the
 same computation as `parse_ecr_content`, written out as top-level statements:
 a rewrite of the text, a loop that fills the section dictionary and a loop
 that grows the two texts.
 */
module EcrDescriptionScript {
  import opened PyStrings
  import opened OrderedDict
  import opened HeadingNormalizer
  import opened SectionSplitter
  import opened SectionRouter
  import opened RepoDescription

  /** The first loop of the script: each section's first line becomes a title and
      the rest its body; a body holding `## Latest unstable` is cut at its first
      occurrence and the part after it stored under `Latest unstable`. */
  method FillSections(chunks: seq<string>) returns (parsed: Dict<string, string>)
    ensures parsed == BuildParsed(chunks)
  {
    parsed := [];
    for j := 0 to |chunks|
      invariant parsed == BuildParsed(chunks[..j])
    {
      BuildParsedStep(chunks, j);
      var sec := chunks[j];
      var lines := Partition(sec, "\n");
      var title := Strip(lines.0);
      var content := lines.2;
      if Contains(content, Marker) {
        // `content.split(Marker, 1)` once `Marker` is known to occur.
        var subParts := Partition(content, Marker);
        var mainContent := Strip(subParts.0);
        var unstableContent := Strip(subParts.2);
        parsed := Upsert(parsed, title, mainContent);
        parsed := Upsert(parsed, LatestUnstable, unstableContent);
        UpsertAllTwo(BuildParsed(chunks[..j]), (title, mainContent), (LatestUnstable, unstableContent));
        continue;
      }
      parsed := Upsert(parsed, title, Strip(content));
      UpsertAllOne(BuildParsed(chunks[..j]), (title, Strip(content)));
    }
    assert chunks[..|chunks|] == chunks;
  }

  /** The second half of the script: "about" opens with the preamble cleared of
      its `##` marks, then every section is rendered and appended to "usage" or
      "about" by its title. */
  method AssembleTexts(preamble: string, parsed: Dict<string, string>)
      returns (aboutText: string, usageText: string)
    ensures aboutText == Route(SeedAbout(preamble), parsed).0
    ensures usageText == Route(SeedAbout(preamble), parsed).1
  {
    ghost var seed := SeedAbout(preamble);
    var usageSections := ["How to use this image", "Image Variants"];
    assert usageSections == UsageTitles;
    usageText := "";
    aboutText := "";
    if preamble != [] {
      var cleaned := StripMarks(preamble, true);
      aboutText := cleaned + "\n\n";
    }
    for j := 0 to |parsed|
      invariant aboutText == Route(seed, parsed[..j]).0
      invariant usageText == Route(seed, parsed[..j]).1
    {
      RouteStep(seed, parsed, j);
      var (title, content) := parsed[j];
      var headingPrefix := if title == "Latest unstable" then "##" else "#";
      var section := headingPrefix + " " + title + "\n" + content + "\n\n";
      if title in usageSections {
        usageText := usageText + section;
      } else {
        aboutText := aboutText + section;
      }
    }
    assert parsed[..|parsed|] == parsed;
  }

  /** The script body, from the markdown text read in to the two stripped texts
      it writes out; it computes exactly what `parse_ecr_content` returns. */
  method CreateEcrDescription(input: string) returns (about: string, usage: string)
    ensures about == ParseEcrContent(input).0
    ensures usage == ParseEcrContent(input).1
  {
    var md := Normalize(input);
    var sections := SplitTopLevel(md);
    var preamble := if Strip(sections[0]) != [] then Strip(sections[0]) else "";
    assert preamble == PreambleOf(input);
    assert sections[1..] == SectionsOf(input);
    var parsed := FillSections(sections[1..]);
    var aboutText, usageText := AssembleTexts(preamble, parsed);
    ParseEcrContentFrom(input, SeedAbout(preamble), parsed);
    about := Strip(aboutText);
    usage := Strip(usageText);
  }
}

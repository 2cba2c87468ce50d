/**
 The logic of generate-repo-description.py: the bullet line each build-matrix
 entry contributes to the Docker Hub description, the sorting of those lines
 into official releases, release candidates and the unstable build, the
 section blocks built from them, and the splitting of a markdown description
 into its "about" and "usage" parts for the ECR gallery.
 */
module RepoDescription {
  import opened PyStrings
  import opened OrderedDict
  import opened HeadingNormalizer
  import opened SectionSplitter
  import opened SectionRouter

  // ---------------------------------------------------------------------------
  // Build-matrix entries, as read from the JSON file. An absent key and a JSON
  // null are both `None`.

  datatype BuildEntry = BuildEntry(tags: Option<seq<string>>, directory: Option<string>)
  datatype Meta = Meta(entries: Option<seq<BuildEntry>>)
  datatype MatrixEntry = MatrixEntry(name: Option<string>, meta: Option<Meta>)
  datatype Matrix = Matrix(includes: Option<seq<MatrixEntry>>)
  datatype Data = Data(matrix: Option<Matrix>)

  /** The errors that stop the description generator: the `KeyError`s it
      raises, and the lookups of an absent `matrix`, `include` or `name`. */
  datatype Error =
    | MissingEntries    // `meta.entries` absent or empty
    | MissingTags       // the first build entry has no tags
    | MissingDirectory  // the first build entry has no directory
    | MissingName       // the matrix entry has no `name`
    | MissingMatrix     // the data has no `matrix`
    | MissingInclude    // the matrix has no `include` list

  datatype Result<T> = Ok(value: T) | Err(error: Error)

  /** `clean_tag`: the text after the first `:`, or the whole tag when it has
      none. */
  function CleanTag(tag: string): (r: string)
    ensures ':' !in tag ==> r == tag
    ensures ':' in tag ==>
              && |r| < |tag|
              && tag == tag[..|tag| - |r| - 1] + [':'] + r
              && ':' !in tag[..|tag| - |r| - 1]
  {
    match FindChar(tag, ':')
    case None => tag
    case Some(i) =>
      assert tag == tag[..i] + [':'] + tag[i + 1..];
      tag[i + 1..]
  }

  lemma CleanTagExample()
    ensures CleanTag("8.0-rc1:bookworm") == "bookworm"
  {
    var tag := "8.0-rc1:bookworm";
    assert FindChar(tag, ':') == Some(7) by {
      assert tag[..7] == "8.0-rc1";
      FindCharIs(tag, ':', 7);
    }
    assert tag[8..] == "bookworm";
  }

  lemma CleanTagPlainExample()
    ensures CleanTag("bookworm") == "bookworm"
  {
    var word := "bookworm";
    assert forall j | 0 <= j < |word| :: word[j] != ':';
  }

  /** The meta entries hold at least one build entry. */
  predicate HasEntries(e: MatrixEntry) {
    e.meta.Some? && e.meta.value.entries.Some? && e.meta.value.entries.value != []
  }

  /** `entries[0]`, the only build entry the line is made from. */
  function FirstBuild(e: MatrixEntry): BuildEntry
    requires HasEntries(e)
  {
    e.meta.value.entries.value[0]
  }

  predicate HasTags(b: BuildEntry) {
    b.tags.Some? && b.tags.value != []
  }

  predicate HasDirectory(b: BuildEntry) {
    b.directory.Some? && b.directory.value != []
  }

  const DockerfileBase: string := "https://github.com/valkey-io/valkey-container/blob/master/"
  const DockerfileName: string := "/Dockerfile)"

  /** The cleaned tags, each between backticks. */
  function Backticked(tags: seq<string>): (r: seq<string>)
    ensures |r| == |tags|
  {
    seq(|tags|, i requires 0 <= i < |tags| => "`" + CleanTag(tags[i]) + "`")
  }

  /** `format_tag_line`: the checks run in order (entries, then tags, then
      directory) and the first one that fails decides the error; when all pass,
      the line links the backticked tags to the build directory's Dockerfile. */
  function FormatTagLine(e: MatrixEntry): (r: Result<string>)
    ensures r.Ok? <==> HasEntries(e) && HasTags(FirstBuild(e)) && HasDirectory(FirstBuild(e))
    ensures r.Err? ==> r.error == (if !HasEntries(e) then MissingEntries
                                   else if !HasTags(FirstBuild(e)) then MissingTags
                                   else MissingDirectory)
  {
    if !HasEntries(e) then Err(MissingEntries)
    else
      var first := FirstBuild(e);
      if !HasTags(first) then Err(MissingTags)
      else if !HasDirectory(first) then Err(MissingDirectory)
      else Ok(TagLine(first.tags.value, first.directory.value))
  }

  /** The bullet line: the backticked tags, joined by `, `, linking to the
      directory's Dockerfile. */
  function TagLine(tags: seq<string>, dir: string): string {
    "- [" + Join(", ", Backticked(tags)) + LinkTail(dir)
  }

  /** The end of the bullet line: the link target, the directory's Dockerfile. */
  function LinkTail(dir: string): string {
    "](" + DockerfileBase + dir + DockerfileName
  }

  /** Where `sep.join(parts)` puts the part at `k`: after the `k` parts before it
      and the `k` separators that follow them. */
  function PartOffset(sep: string, parts: seq<string>, k: nat): nat
    requires k <= |parts|
  {
    if k == 0 then 0 else |parts[0]| + |sep| + PartOffset(sep, parts[1..], k - 1)
  }

  /** The part at `k` stands at its offset in the joined text; the separator
      follows it, unless it is the last part, which ends the text. */
  lemma {:induction false} JoinPartAt(sep: string, parts: seq<string>, k: nat) returns (i: nat)
    requires k < |parts|
    ensures i == PartOffset(sep, parts, k)
    ensures OccursAt(Join(sep, parts), parts[k], i)
    ensures k + 1 < |parts| ==> OccursAt(Join(sep, parts), sep, i + |parts[k]|)
    ensures k + 1 == |parts| ==> i + |parts[k]| == |Join(sep, parts)|
  {
    if |parts| == 1 {
      i := 0;
    } else if k == 0 {
      i := 0;
      var rest := Join(sep, parts[1..]);
      assert Join(sep, parts) == parts[0] + sep + rest;
      OccursFront(parts[0], sep, rest);
    } else {
      var j := JoinPartAt(sep, parts[1..], k - 1);
      var head := parts[0] + sep;
      var tail := Join(sep, parts[1..]);
      assert Join(sep, parts) == head + tail;
      assert parts[1..][k - 1] == parts[k];
      i := |head| + j;
      OccursShift(head, tail, parts[k], j);
      if k + 1 < |parts| {
        OccursShift(head, tail, sep, j + |parts[k]|);
      }
    }
  }

  lemma OccursFront(a: string, sep: string, rest: string)
    ensures OccursAt(a + sep + rest, a, 0) && OccursAt(a + sep + rest, sep, |a|)
  {
    SliceOfFront(a, sep + rest, 0, |a|);
    assert a + sep + rest == a + (sep + rest);
    SliceOfBack(a, sep + rest, 0, |sep|);
  }

  lemma OccursShift(head: string, tail: string, pat: string, j: nat)
    requires OccursAt(tail, pat, j)
    ensures OccursAt(head + tail, pat, |head| + j)
  {
    SliceOfBack(head, tail, j, |pat|);
  }


  lemma TagLineEnds(tags: seq<string>, dir: string)
    ensures EndsWith(TagLine(tags, dir), LinkTail(dir))
    ensures EndsWith(TagLine(tags, dir), dir + DockerfileName)
  {
    EndsWithConcat("- [" + Join(", ", Backticked(tags)), LinkTail(dir));
    LinkTailEnds(dir);
    EndsWithTrans(TagLine(tags, dir), LinkTail(dir), dir + DockerfileName);
  }

  lemma LinkTailEnds(dir: string)
    ensures EndsWith(LinkTail(dir), dir + DockerfileName)
  {
    assert LinkTail(dir) == "](" + DockerfileBase + (dir + DockerfileName);
    EndsWithConcat("](" + DockerfileBase, dir + DockerfileName);
  }

  lemma TagLineStarts(tags: seq<string>, dir: string)
    requires tags != []
    ensures StartsWith(TagLine(tags, dir), "- [`")
  {
    var parts := Backticked(tags);
    var joined := Join(", ", parts);
    var rest := joined + LinkTail(dir);
    assert TagLine(tags, dir) == "- [" + rest;
    var i := JoinPartAt(", ", parts, 0);
    assert parts[0] == "`" + CleanTag(tags[0]) + "`";
    assert joined[0] == '`';
    assert TagLine(tags, dir)[..4] == "- [" + [rest[0]];
  }

  /** The tags in the line, in order: the `k`-th cleaned, backticked tag stands at
      its offset in the joined list, three characters in (after `- [`); a `, `
      follows it, or, after the last tag, the link that ends the line. */
  lemma TagLineParts(tags: seq<string>, dir: string, k: nat)
    requires k < |tags|
    ensures OccursAt(TagLine(tags, dir), Backticked(tags)[k], 3 + PartOffset(", ", Backticked(tags), k))
    ensures k + 1 < |tags| ==>
              OccursAt(TagLine(tags, dir), ", ", 3 + PartOffset(", ", Backticked(tags), k) + |Backticked(tags)[k]|)
    ensures k + 1 == |tags| ==>
              3 + PartOffset(", ", Backticked(tags), k) + |Backticked(tags)[k]| + |LinkTail(dir)| == |TagLine(tags, dir)|
  {
    TagLineTagAt(tags, dir, k);
    if k + 1 < |tags| {
      TagLineSeparatorAfter(tags, dir, k);
    } else {
      TagLineLastTag(tags, dir);
    }
  }

  lemma TagLineTagAt(tags: seq<string>, dir: string, k: nat)
    requires k < |tags|
    ensures OccursAt(TagLine(tags, dir), Backticked(tags)[k], 3 + PartOffset(", ", Backticked(tags), k))
  {
    BulletPart(Backticked(tags), LinkTail(dir), k);
  }

  lemma TagLineSeparatorAfter(tags: seq<string>, dir: string, k: nat)
    requires k + 1 < |tags|
    ensures OccursAt(TagLine(tags, dir), ", ", 3 + PartOffset(", ", Backticked(tags), k) + |Backticked(tags)[k]|)
  {
    BulletSeparator(Backticked(tags), LinkTail(dir), k);
  }

  lemma TagLineLastTag(tags: seq<string>, dir: string)
    requires tags != []
    ensures var k := |tags| - 1;
            3 + PartOffset(", ", Backticked(tags), k) + |Backticked(tags)[k]| + |LinkTail(dir)| == |TagLine(tags, dir)|
  {
    BulletTail(Backticked(tags), LinkTail(dir));
  }

  /** Where the parts of a bullet line `- [` + joined list + tail sit: the
      part at `k`, the separator after it, and the tail after the last part. */
  lemma BulletPart(parts: seq<string>, tail: string, k: nat)
    requires k < |parts|
    ensures OccursAt("- [" + Join(", ", parts) + tail, parts[k], 3 + PartOffset(", ", parts, k))
  {
    JoinedLineParts("- [" + Join(", ", parts) + tail, "- [", 3, ", ", parts, tail, k);
  }

  lemma BulletSeparator(parts: seq<string>, tail: string, k: nat)
    requires k + 1 < |parts|
    ensures OccursAt("- [" + Join(", ", parts) + tail, ", ", 3 + PartOffset(", ", parts, k) + |parts[k]|)
  {
    JoinedLineParts("- [" + Join(", ", parts) + tail, "- [", 3, ", ", parts, tail, k);
  }

  lemma BulletTail(parts: seq<string>, tail: string)
    requires parts != []
    ensures var k := |parts| - 1;
            3 + PartOffset(", ", parts, k) + |parts[k]| + |tail| == |"- [" + Join(", ", parts) + tail|
  {
    JoinedLineParts("- [" + Join(", ", parts) + tail, "- [", 3, ", ", parts, tail, |parts| - 1);
  }


  /** The `k`-th entry of the list is the `k`-th tag, cleaned, between backticks. */
  lemma BacktickedAt(tags: seq<string>, k: nat)
    requires k < |tags|
    ensures Backticked(tags)[k] == "`" + CleanTag(tags[k]) + "`"
  {
  }

  /** The same for any text that wraps a joined list. */
  lemma JoinedLineParts(line: string, pre: string, n: nat, sep: string, parts: seq<string>, post: string, k: nat)
    requires line == pre + Join(sep, parts) + post && n == |pre| && k < |parts|
    ensures OccursAt(line, parts[k], n + PartOffset(sep, parts, k))
    ensures k + 1 < |parts| ==> OccursAt(line, sep, n + PartOffset(sep, parts, k) + |parts[k]|)
    ensures k + 1 == |parts| ==> n + PartOffset(sep, parts, k) + |parts[k]| + |post| == |line|
  {
    var i := JoinPartAt(sep, parts, k);
    OccursInMiddle(pre, Join(sep, parts), post, parts[k], i);
    if k + 1 < |parts| {
      OccursInMiddle(pre, Join(sep, parts), post, sep, i + |parts[k]|);
    }
  }

  lemma TagLineMentions(tags: seq<string>, dir: string, k: nat)
    requires k < |tags|
    ensures Contains(TagLine(tags, dir), "`" + CleanTag(tags[k]) + "`")
  {
    var line, pat, i := TagLine(tags, dir), Backticked(tags)[k], 3 + PartOffset(", ", Backticked(tags), k);
    assert OccursAt(line, pat, i) by { TagLineTagAt(tags, dir, k); }
    assert pat == "`" + CleanTag(tags[k]) + "`" by { BacktickedAt(tags, k); }
    OccursContains(line, pat, i);
  }

  /** A successful line is made from the first build entry alone: it opens with
      ``- [` ``; the entry's tags follow, cleaned and between backticks, each at
      its offset and separated by `, `; the last is followed by the link to the
      entry's directory's Dockerfile, which ends the line. */
  lemma TagLineShape(e: MatrixEntry, k: nat)
    requires FormatTagLine(e).Ok?
    ensures HasEntries(e) && HasTags(FirstBuild(e)) && HasDirectory(FirstBuild(e))
    ensures FormatTagLine(e).value == TagLine(FirstBuild(e).tags.value, FirstBuild(e).directory.value)
    ensures StartsWith(FormatTagLine(e).value, "- [`")
    ensures EndsWith(FormatTagLine(e).value, LinkTail(FirstBuild(e).directory.value))
    ensures EndsWith(FormatTagLine(e).value, FirstBuild(e).directory.value + DockerfileName)
    ensures k < |FirstBuild(e).tags.value| ==>
              Contains(FormatTagLine(e).value, "`" + CleanTag(FirstBuild(e).tags.value[k]) + "`")
  {
    var first := FirstBuild(e);
    TagLineStarts(first.tags.value, first.directory.value);
    TagLineEnds(first.tags.value, first.directory.value);
    if k < |first.tags.value| {
      TagLineMentions(first.tags.value, first.directory.value, k);
    }
  }

  /** The tags of a successful line stand in order: the `k`-th cleaned,
      backticked tag of the first build sits at its offset in the `, `-joined
      list, three characters in; a `, ` follows it, or, after the last tag, the
      link that ends the line. Nothing else lies between `- [` and the link. */
  lemma TagLineOrder(e: MatrixEntry, k: nat)
    requires FormatTagLine(e).Ok?
    ensures var tags := Backticked(FirstBuild(e).tags.value);
            k < |tags| ==>
              && tags[k] == "`" + CleanTag(FirstBuild(e).tags.value[k]) + "`"
              && OccursAt(FormatTagLine(e).value, tags[k], 3 + PartOffset(", ", tags, k))
              && (k + 1 < |tags| ==> OccursAt(FormatTagLine(e).value, ", ", 3 + PartOffset(", ", tags, k) + |tags[k]|))
              && (k + 1 == |tags| ==>
                    3 + PartOffset(", ", tags, k) + |tags[k]| + |LinkTail(FirstBuild(e).directory.value)|
                    == |FormatTagLine(e).value|)
  {
    var first := FirstBuild(e);
    if k < |first.tags.value| {
      assert FormatTagLine(e).value == TagLine(first.tags.value, first.directory.value);
      TagLineParts(first.tags.value, first.directory.value, k);
      BacktickedAt(first.tags.value, k);
    }
  }

  /** Only the first build entry matters: entries that agree on it give the same
      result. */
  lemma TagLineUsesFirstBuildOnly(e1: MatrixEntry, e2: MatrixEntry)
    requires HasEntries(e1) == HasEntries(e2)
    requires HasEntries(e1) ==> FirstBuild(e1) == FirstBuild(e2)
    ensures FormatTagLine(e1) == FormatTagLine(e2)
  {
  }

  // ---------------------------------------------------------------------------
  // The classification loop of `process_template`.

  datatype Channel = Official | ReleaseCandidate | Unstable

  /** "rc" anywhere in the name wins over "unstable"; any other name is an
      official release. */
  function ChannelOf(name: string): Channel {
    if Contains(name, "rc") then ReleaseCandidate
    else if Contains(name, "unstable") then Unstable
    else Official
  }

  /** One loop step: the entry's line is formatted first, then its name read. */
  function EntryLine(e: MatrixEntry): Result<(Channel, string)> {
    match FormatTagLine(e)
    case Err(x) => Err(x)
    case Ok(line) =>
      if e.name.None? then Err(MissingName) else Ok((ChannelOf(e.name.value), line))
  }

  /** The outcome of a run of steps that stops at the first failure: the results
      of all steps in order, or the error of the first step that fails. */
  function Collect<T>(steps: seq<Result<T>>): (r: Result<seq<T>>)
    ensures r.Ok? ==> |r.value| == |steps|
  {
    if steps == [] then Ok([])
    else match Collect(steps[..|steps| - 1])
      case Err(x) => Err(x)
      case Ok(done) =>
        match steps[|steps| - 1]
        case Err(x) => Err(x)
        case Ok(v) => Ok(done + [v])
  }

  /** When every step before `i` succeeds and step `i` fails, its error is the
      one reported, whatever follows. */
  lemma {:induction false} FirstFailureReported<T>(steps: seq<Result<T>>, i: nat)
    requires i < |steps|
    requires forall j :: 0 <= j < i ==> steps[j].Ok?
    requires steps[i].Err?
    ensures Collect(steps).Err? && Collect(steps).error == steps[i].error
  {
    if i < |steps| - 1 {
      var init := steps[..|steps| - 1];
      assert forall j :: 0 <= j <= i ==> init[j] == steps[j];
      FirstFailureReported(init, i);
    } else {
      AllSucceed(steps[..i]);
    }
  }

  /** When every step succeeds, the outcome is the steps' values in order. */
  lemma {:induction false} AllSucceed<T>(steps: seq<Result<T>>)
    requires forall j :: 0 <= j < |steps| ==> steps[j].Ok?
    ensures Collect(steps).Ok?
    ensures forall j :: 0 <= j < |steps| ==> Collect(steps).value[j] == steps[j].value
  {
    if steps != [] {
      var init := steps[..|steps| - 1];
      assert forall j :: 0 <= j < |init| ==> init[j] == steps[j];
      AllSucceed(init);
    }
  }

  /** A run that succeeds succeeded at every step, and holds the steps' values. */
  lemma {:induction false} CollectValues<T>(steps: seq<Result<T>>)
    requires Collect(steps).Ok?
    ensures forall j :: 0 <= j < |steps| ==> steps[j].Ok? && Collect(steps).value[j] == steps[j].value
  {
    if steps != [] {
      var init := steps[..|steps| - 1];
      CollectValues(init);
      assert forall j :: 0 <= j < |init| ==> init[j] == steps[j];
    }
  }

  /** One step more: a failure stops the run, a success extends it. */
  lemma CollectStep<T>(steps: seq<Result<T>>, i: nat)
    requires i < |steps| && Collect(steps[..i]).Ok?
    ensures steps[i].Err? ==> Collect(steps[..i + 1]).Err? && Collect(steps[..i + 1]).error == steps[i].error
    ensures steps[i].Ok? ==> Collect(steps[..i + 1]).Ok? && Collect(steps[..i + 1]).value == Collect(steps[..i]).value + [steps[i].value]
  {
    var prefix := steps[..i + 1];
    assert prefix[..i] == steps[..i] && prefix[i] == steps[i];
  }

  /** A failing prefix makes the whole run fail the same way. */
  lemma {:induction false} PrefixFailure<T>(steps: seq<Result<T>>, n: nat)
    requires n <= |steps| && Collect(steps[..n]).Err?
    ensures Collect(steps).Err? && Collect(steps).error == Collect(steps[..n]).error
    decreases |steps| - n
  {
    if n < |steps| {
      var prefix := steps[..n + 1];
      assert prefix[..n] == steps[..n];
      PrefixFailure(steps, n + 1);
    } else {
      assert steps[..n] == steps;
    }
  }

  /** One step per matrix entry. */
  function EntrySteps(es: seq<MatrixEntry>): (r: seq<Result<(Channel, string)>>)
    ensures |r| == |es|
  {
    seq(|es|, i requires 0 <= i < |es| => EntryLine(es[i]))
  }

  /** `data["matrix"]["include"]`, classified. */
  function ClassifiedOf(data: Data): Result<seq<(Channel, string)>> {
    if data.matrix.None? then Err(MissingMatrix)
    else if data.matrix.value.includes.None? then Err(MissingInclude)
    else Collect(EntrySteps(data.matrix.value.includes.value))
  }

  /** The lines of one channel, in input order. */
  function OfChannel(ls: seq<(Channel, string)>, c: Channel): (r: seq<string>)
    ensures |r| <= |ls|
  {
    if ls == [] then []
    else
      var rest := OfChannel(ls[..|ls| - 1], c);
      if ls[|ls| - 1].0 == c then rest + [ls[|ls| - 1].1] else rest
  }

  /** Appending a line extends the list of its own channel only. */
  lemma OfChannelAppend(ls: seq<(Channel, string)>, l: (Channel, string))
    ensures forall c :: OfChannel(ls + [l], c) == if l.0 == c then OfChannel(ls, c) + [l.1] else OfChannel(ls, c)
  {
    assert (ls + [l])[..|ls|] == ls;
  }

  /** All the lines, in input order. */
  function AllLines(ls: seq<(Channel, string)>): (r: seq<string>)
    ensures |r| == |ls|
    ensures forall i :: 0 <= i < |ls| ==> r[i] == ls[i].1
  {
    seq(|ls|, i requires 0 <= i < |ls| => ls[i].1)
  }

  /** When the classification succeeds, every entry had a well-formed first build
      and a name, and its line went to the channel its name selects: release
      candidates for any name holding "rc", even one that also holds "unstable";
      latest unstable for other names holding "unstable"; official releases for
      the rest. */
  lemma EntryChannel(data: Data, k: nat)
    requires ClassifiedOf(data).Ok?
    requires data.matrix.Some? && data.matrix.value.includes.Some? && k < |data.matrix.value.includes.value|
    ensures var e := data.matrix.value.includes.value[k];
            && FormatTagLine(e).Ok? && e.name.Some?
            && ClassifiedOf(data).value[k].1 == FormatTagLine(e).value
            && (Contains(e.name.value, "rc") ==> ClassifiedOf(data).value[k].0 == ReleaseCandidate)
            && (!Contains(e.name.value, "rc") && Contains(e.name.value, "unstable") ==>
                  ClassifiedOf(data).value[k].0 == Unstable)
            && (!Contains(e.name.value, "rc") && !Contains(e.name.value, "unstable") ==>
                  ClassifiedOf(data).value[k].0 == Official)
  {
    var entries := data.matrix.value.includes.value;
    var steps := EntrySteps(entries);
    CollectValues(steps);
    assert steps[k] == EntryLine(entries[k]);
  }

  /** Every line lands in exactly one of the three lists. */
  lemma {:induction false} ChannelsPartition(ls: seq<(Channel, string)>)
    ensures multiset(OfChannel(ls, Official)) + multiset(OfChannel(ls, ReleaseCandidate)) + multiset(OfChannel(ls, Unstable))
            == multiset(AllLines(ls))
    ensures |OfChannel(ls, Official)| + |OfChannel(ls, ReleaseCandidate)| + |OfChannel(ls, Unstable)| == |ls|
  {
    if ls != [] {
      var init := ls[..|ls| - 1];
      ChannelsPartition(init);
      assert AllLines(ls) == AllLines(init) + [ls[|ls| - 1].1];
    }
  }

  /** A block of the description: nothing for no lines, otherwise a level-two
      heading and the lines one per line. */
  function SectionBlock(heading: string, lines: seq<string>): (b: string)
    ensures b == [] <==> lines == []
  {
    if lines == [] then "" else "\n## " + heading + "\n" + Join("\n", lines)
  }

  /** A non-empty block opens with its heading line and then lists exactly its
      lines, as long as none of them holds a line feed. */
  lemma BlockLines(heading: string, lines: seq<string>)
    requires lines != [] && '\n' !in heading
    requires forall k :: 0 <= k < |lines| ==> '\n' !in lines[k]
    ensures var b := SectionBlock(heading, lines);
            var head := "\n## " + heading + "\n";
            |head| <= |b| && b[..|head|] == head && SplitChar(b[|head|..], '\n') == lines
  {
    var head := "\n## " + heading + "\n";
    assert SectionBlock(heading, lines) == head + Join("\n", lines);
    assert (head + Join("\n", lines))[|head|..] == Join("\n", lines);
    SplitJoin(lines, '\n');
  }

  /** The three strings `process_template` hands to the template. */
  datatype Blocks = Blocks(officialReleases: string, releaseCandidates: string, unstable: string)

  function BlocksOf(ls: seq<(Channel, string)>): Blocks {
    Blocks(
      Join("\n", OfChannel(ls, Official)),
      SectionBlock("Release candidates", OfChannel(ls, ReleaseCandidate)),
      SectionBlock("Latest unstable", OfChannel(ls, Unstable)))
  }

  /** One entry more in the loop of ClassifyEntries: a failing entry fails the whole
      run with its error, a good one extends the list of its own channel only. */
  lemma ClassifyStep(entries: seq<MatrixEntry>, i: nat)
    requires i < |entries| && Collect(EntrySteps(entries)[..i]).Ok?
    ensures EntryLine(entries[i]).Err? ==>
              Collect(EntrySteps(entries)).Err? && Collect(EntrySteps(entries)).error == EntryLine(entries[i]).error
    ensures EntryLine(entries[i]).Ok? ==>
              && Collect(EntrySteps(entries)[..i + 1]).Ok?
              && forall c :: OfChannel(Collect(EntrySteps(entries)[..i + 1]).value, c)
                             == if EntryLine(entries[i]).value.0 == c
                                then OfChannel(Collect(EntrySteps(entries)[..i]).value, c) + [EntryLine(entries[i]).value.1]
                                else OfChannel(Collect(EntrySteps(entries)[..i]).value, c)
  {
    var steps := EntrySteps(entries);
    CollectStep(steps, i);
    assert steps[i] == EntryLine(entries[i]);
    if steps[i].Err? {
      PrefixFailure(steps, i + 1);
    } else {
      OfChannelAppend(Collect(steps[..i]).value, steps[i].value);
    }
  }

  /** The loop of `process_template`: each entry's line is formatted and
      appended to the list of its channel (official releases, release
      candidates, latest unstable); the first failure aborts. */
  method ClassifyEntries(entries: seq<MatrixEntry>) returns (r: Result<(seq<string>, seq<string>, seq<string>)>)
    ensures r.Err? <==> Collect(EntrySteps(entries)).Err?
    ensures r.Err? ==> r.error == Collect(EntrySteps(entries)).error
    ensures r.Ok? ==> && r.value.0 == OfChannel(Collect(EntrySteps(entries)).value, Official)
                      && r.value.1 == OfChannel(Collect(EntrySteps(entries)).value, ReleaseCandidate)
                      && r.value.2 == OfChannel(Collect(EntrySteps(entries)).value, Unstable)
  {
    ghost var steps := EntrySteps(entries);
    var officialReleases: seq<string> := [];
    var releaseCandidates: seq<string> := [];
    var latestUnstable: seq<string> := [];
    for i := 0 to |entries|
      invariant Collect(steps[..i]).Ok?
      invariant officialReleases == OfChannel(Collect(steps[..i]).value, Official)
      invariant releaseCandidates == OfChannel(Collect(steps[..i]).value, ReleaseCandidate)
      invariant latestUnstable == OfChannel(Collect(steps[..i]).value, Unstable)
    {
      ClassifyStep(entries, i);
      var line := FormatTagLine(entries[i]);
      if line.Err? {
        return Err(line.error);
      }
      if entries[i].name.None? {
        return Err(MissingName);
      }
      var c := ChannelOf(entries[i].name.value);
      if c == ReleaseCandidate {
        releaseCandidates := releaseCandidates + [line.value];
      } else if c == Unstable {
        latestUnstable := latestUnstable + [line.value];
      } else {
        officialReleases := officialReleases + [line.value];
      }
    }
    assert steps[..|entries|] == steps;
    r := Ok((officialReleases, releaseCandidates, latestUnstable));
  }

  /** `process_template` up to the text it fills in: the matrix and its entries
      are looked up, the entries classified, and the three blocks built. */
  method ProcessTemplateBlocks(data: Data) returns (r: Result<Blocks>)
    ensures r.Err? <==> ClassifiedOf(data).Err?
    ensures r.Err? ==> r.error == ClassifiedOf(data).error
    ensures r.Ok? ==> r.value == BlocksOf(ClassifiedOf(data).value)
  {
    if data.matrix.None? {
      return Err(MissingMatrix);
    }
    if data.matrix.value.includes.None? {
      return Err(MissingInclude);
    }
    var lists := ClassifyEntries(data.matrix.value.includes.value);
    if lists.Err? {
      return Err(lists.error);
    }
    var (officialReleases, releaseCandidates, latestUnstable) := lists.value;
    r := Ok(Blocks(
      Join("\n", officialReleases),
      SectionBlock("Release candidates", releaseCandidates),
      SectionBlock("Latest unstable", latestUnstable)));
  }

  // ---------------------------------------------------------------------------
  // `parse_ecr_content`.

  /** The top-level sections of the normalised text after the preamble. */
  function SectionsOf(md: string): seq<string> {
    SplitTopLevel(Normalize(md))[1..]
  }

  /** The preamble: the text before the first top-level heading, stripped. */
  function PreambleOf(md: string): string {
    Strip(SplitTopLevel(Normalize(md))[0])
  }

  /** `parse_ecr_content`: normalise the underlined headings, split at the
      top-level headings, build the ordered section dictionary, seed "about"
      with the cleaned preamble, route every section and strip both texts. */
  function ParseEcrContent(md: string): (r: (string, string))
    ensures IsStripped(r.0) && IsStripped(r.1)
  {
    var parsed := BuildParsed(SectionsOf(md));
    var routed := Route(SeedAbout(PreambleOf(md)), parsed);
    (Strip(routed.0), Strip(routed.1))
  }

  /** `parse_ecr_content` in terms of its intermediate values. */
  lemma ParseEcrContentFrom(md: string, seed: string, parsed: Dict<string, string>)
    requires seed == SeedAbout(PreambleOf(md)) && parsed == BuildParsed(SectionsOf(md))
    ensures ParseEcrContent(md).0 == Strip(Route(seed, parsed).0)
    ensures ParseEcrContent(md).1 == Strip(Route(seed, parsed).1)
  {
  }

  /** "usage" is the usage-titled sections and "about" the seed and every other
      section, each in dictionary order; the dictionary holds each title once,
      in order of first appearance, with the last body written to it. */
  lemma ParseEcrContentSections(md: string)
    ensures var parsed := BuildParsed(SectionsOf(md));
            && ParseEcrContent(md).0 == Strip(SeedAbout(PreambleOf(md)) + RenderAll(AboutEntries(parsed)))
            && ParseEcrContent(md).1 == Strip(RenderAll(UsageEntries(parsed)))
            && Keys(parsed) == Dedup(Keys(Writes(SectionsOf(md))))
            && (forall t :: Get(parsed, t) == LastWrite(Writes(SectionsOf(md)), t))
  {
    var parsed := BuildParsed(SectionsOf(md));
    RouteFilters(SeedAbout(PreambleOf(md)), parsed);
    ParsedSections(SectionsOf(md));
  }

  /** A text without top-level headings has an empty "usage", and its "about"
      is the whole normalised text, stripped, with `##` and the whitespace after
      it removed at its line starts. */
  lemma WithoutTopLevelHeadings(md: string)
    requires forall p :: !IsCutAt(Normalize(md), p)
    ensures ParseEcrContent(md).1 == ""
    ensures ParseEcrContent(md).0 == Strip(StripMarks(Strip(Normalize(md)), true))
  {
    SplitWithoutHeadings(Normalize(md));
    assert SectionsOf(md) == [];
    assert BuildParsed([]) == [];
    ParseEcrContentFrom(md, SeedAbout(PreambleOf(md)), []);
    RouteNoSections(PreambleOf(md));
  }

  /** The same stated on the input: a description with no line starting with
      `# ` keeps none after normalisation, since each replacement is a `##`
      line followed by an empty line. */
  lemma HeadinglessDescription(md: string)
    requires forall p :: !IsCutAt(md, p)
    ensures ParseEcrContent(md).1 == ""
    ensures ParseEcrContent(md).0 == Strip(StripMarks(Strip(Normalize(md)), true))
  {
    NormalizeKeepsNoCut(md);
    WithoutTopLevelHeadings(md);
  }

  /** Normalising creates no line that starts with `# `. */
  lemma {:induction false} NormalizeKeepsNoCut(s: string)
    requires forall p :: !IsCutAt(s, p)
    ensures forall p :: !IsCutAt(Normalize(s), p)
    decreases |s|
  {
    if s != [] {
      var heading := MatchUnderlined(s);
      if heading.Some? {
        var k := heading.value.1;
        NoCutAfterLine(s, k);
        NormalizeKeepsNoCut(s[k..]);
        NoCutInSubheading(heading.value.0);
        NoCutConcat("## " + heading.value.0 + "\n\n", Normalize(s[k..]));
      } else {
        var k := LineLength(s);
        NoCutAfterLine(s, k);
        NormalizeKeepsNoCut(s[k..]);
        NoCutInPrefix(s, k);
        assert k == |s| ==> Normalize(s[k..]) == [];
        NoCutConcat(s[..k], Normalize(s[k..]));
      }
    }
  }
}

/**
 Cutting the normalised description into top-level sections and reading each
 section into dictionary writes: `re.split(r"(?m)^# ", text)`, then, per
 section, the title line, the body, and the `## Latest unstable` sub-section
 that is lifted out into a section of its own.
 */
module SectionSplitter {
  import opened PyStrings
  import opened OrderedDict

  /** `(?m)^# ` matches at `p`: `p` starts a line and `# ` follows. A `##`
      heading never matches, since its second character is not a space. */
  predicate IsCutAt(s: string, p: nat) {
    p + 2 <= |s| && (p == 0 || s[p - 1] == '\n') && s[p] == '#' && s[p + 1] == ' '
  }

  /** The pieces of `s[start..]`, the current piece having begun at `start` and
      the scan having reached `i` without meeting a cut. */
  function SplitFrom(s: string, start: nat, i: nat): (r: seq<string>)
    requires start <= i <= |s|
    ensures |r| >= 1
    decreases |s| - i
  {
    if i + 2 > |s| then [s[start..]]
    else if IsCutAt(s, i) then [s[start..i]] + SplitFrom(s, i + 2, i + 2)
    else SplitFrom(s, start, i + 1)
  }

  /** `re.split(r"(?m)^# ", s)`: there is always a first piece, the text before
      the first top-level heading (empty when `s` opens with one). */
  function SplitTopLevel(s: string): (r: seq<string>)
    ensures |r| >= 1
  {
    SplitFrom(s, 0, 0)
  }

  /** Putting the `# ` markers back between the pieces gives back the text. */
  lemma {:induction false} SplitFromJoin(s: string, start: nat, i: nat)
    requires start <= i <= |s|
    ensures Join("# ", SplitFrom(s, start, i)) == s[start..]
    decreases |s| - i
  {
    if i + 2 > |s| {
    } else if IsCutAt(s, i) {
      var rest := SplitFrom(s, i + 2, i + 2);
      SplitFromJoin(s, i + 2, i + 2);
      var r := [s[start..i]] + rest;
      assert r[1..] == rest;
      assert s[i..i + 2] == "# ";
      assert s[start..] == s[start..i] + "# " + s[i + 2..];
    } else {
      SplitFromJoin(s, start, i + 1);
    }
  }

  /** Each join point was a cut: after the first `k` pieces and the `# ` markers
      between them, the text continues with a line-start `# `. */
  lemma {:induction false} SplitFromCuts(s: string, start: nat, i: nat)
    requires start <= i <= |s|
    ensures forall k :: 0 < k < |SplitFrom(s, start, i)| ==>
              IsCutAt(s, start + |Join("# ", SplitFrom(s, start, i)[..k])|)
    decreases |s| - i
  {
    if i + 2 > |s| {
    } else if IsCutAt(s, i) {
      var rest := SplitFrom(s, i + 2, i + 2);
      SplitFromCuts(s, i + 2, i + 2);
      var r := [s[start..i]] + rest;
      forall k | 0 < k < |r|
        ensures IsCutAt(s, start + |Join("# ", r[..k])|)
      {
        if k == 1 {
          assert r[..1] == [s[start..i]];
        } else {
          assert r[..k][1..] == rest[..k - 1];
          assert Join("# ", r[..k]) == s[start..i] + "# " + Join("# ", rest[..k - 1]);
        }
      }
    } else {
      SplitFromCuts(s, start, i + 1);
    }
  }

  /** A piece taken from a stretch of `s` free of cuts holds no cut either, except
      possibly at its own first position when that is not the start of `s`. */
  lemma NoCutInSlice(s: string, a: nat, b: nat)
    requires a <= b <= |s|
    requires forall q :: a <= q < b ==> !IsCutAt(s, q)
    ensures forall q :: (0 < q || a == 0) ==> !IsCutAt(s[a..b], q)
  {
    forall q: nat | 0 < q || a == 0
      ensures !IsCutAt(s[a..b], q)
    {
      if q + 2 <= b - a {
        assert !IsCutAt(s, a + q);
        assert s[a..b][q] == s[a + q] && s[a..b][q + 1] == s[a + q + 1];
        assert q > 0 ==> s[a..b][q - 1] == s[a + q - 1];
      }
    }
  }

  lemma {:induction false} SplitFromPieces(s: string, start: nat, i: nat)
    requires start <= i <= |s|
    requires forall q :: start <= q < i ==> !IsCutAt(s, q)
    ensures forall k, q :: 0 <= k < |SplitFrom(s, start, i)| && (0 < q || (k == 0 && start == 0)) ==>
              !IsCutAt(SplitFrom(s, start, i)[k], q)
    decreases |s| - i
  {
    if i + 2 > |s| {
      assert forall q :: i <= q ==> !IsCutAt(s, q);
      NoCutInSlice(s, start, |s|);
      assert s[start..] == s[start..|s|];
      assert SplitFrom(s, start, i) == [s[start..|s|]];
    } else if IsCutAt(s, i) {
      NoCutInSlice(s, start, i);
      var rest := SplitFrom(s, i + 2, i + 2);
      SplitFromPieces(s, i + 2, i + 2);
      var r := [s[start..i]] + rest;
      assert forall k :: 1 <= k < |r| ==> r[k] == rest[k - 1];
    } else {
      SplitFromPieces(s, start, i + 1);
    }
  }

  /** The split is exact: joining the pieces with `# ` restores `s`; the first
      piece contains no top-level heading at all, and the others none past their
      first character; and every join point is a line-start `# ` of `s`. So `s`
      was cut at every line that opens with `# `, and only there. */
  lemma SplitTopLevelSpec(s: string)
    ensures Join("# ", SplitTopLevel(s)) == s
    ensures forall q :: !IsCutAt(SplitTopLevel(s)[0], q)
    ensures forall k, q :: 0 < k < |SplitTopLevel(s)| && 0 < q ==> !IsCutAt(SplitTopLevel(s)[k], q)
    ensures forall k :: 0 < k < |SplitTopLevel(s)| ==> IsCutAt(s, |Join("# ", SplitTopLevel(s)[..k])|)
  {
    SplitFromCuts(s, 0, 0);
    SplitFromJoin(s, 0, 0);
    SplitFromPieces(s, 0, 0);
  }

  lemma {:induction false} NoCutFrom(s: string, i: nat)
    requires i <= |s|
    requires forall p :: !IsCutAt(s, p)
    ensures SplitFrom(s, 0, i) == [s]
    decreases |s| - i
  {
    if i + 2 <= |s| {
      NoCutFrom(s, i + 1);
    }
  }

  /** Joining two texts without a cut, the first ending a line (or either one
      empty), makes no cut either. */
  lemma NoCutConcat(a: string, b: string)
    requires forall p :: !IsCutAt(a, p)
    requires forall p :: !IsCutAt(b, p)
    requires a == [] || b == [] || a[|a| - 1] == '\n'
    ensures forall p :: !IsCutAt(a + b, p)
  {
    forall p: nat | IsCutAt(a + b, p)
      ensures false
    {
      if p + 1 < |a| {
        assert (a + b)[p] == a[p] && (a + b)[p + 1] == a[p + 1];
        assert p > 0 ==> (a + b)[p - 1] == a[p - 1];
        assert IsCutAt(a, p);
      } else if p + 1 > |a| {
        var q := p - |a|;
        assert (a + b)[p] == b[q] && (a + b)[p + 1] == b[q + 1];
        assert q > 0 ==> (a + b)[p - 1] == b[q - 1];
        assert IsCutAt(b, q);
      }
    }
  }

  /** A prefix of a text without a cut has none. */
  lemma NoCutInPrefix(s: string, k: nat)
    requires k <= |s| && forall p :: !IsCutAt(s, p)
    ensures forall p :: !IsCutAt(s[..k], p)
  {
    forall p: nat | IsCutAt(s[..k], p)
      ensures false
    {
      assert s[..k][p] == s[p] && s[..k][p + 1] == s[p + 1];
      assert p > 0 ==> s[..k][p - 1] == s[p - 1];
      assert IsCutAt(s, p);
    }
  }

  /** The text after a line end of a text without a cut has none. */
  lemma NoCutAfterLine(s: string, k: nat)
    requires k <= |s| && (k == 0 || k == |s| || s[k - 1] == '\n')
    requires forall p :: !IsCutAt(s, p)
    ensures forall p :: !IsCutAt(s[k..], p)
  {
    forall p: nat | IsCutAt(s[k..], p)
      ensures false
    {
      assert s[k..][p] == s[k + p] && s[k..][p + 1] == s[k + p + 1];
      assert p > 0 ==> s[k..][p - 1] == s[k + p - 1];
      assert IsCutAt(s, k + p);
    }
  }

  /** A `##` heading line followed by an empty line holds no cut. */
  lemma NoCutInSubheading(title: string)
    requires '\n' !in title
    ensures forall p :: !IsCutAt("## " + title + "\n\n", p)
  {
    var h := "## " + title + "\n\n";
    forall q: nat | q < |h| - 2
      ensures h[q] != '\n'
    {
      if q >= 3 {
        assert h[q] == title[q - 3];
      }
    }
  }

  /** Text with no line opening with `# ` is a single piece. */
  lemma SplitWithoutHeadings(s: string)
    requires forall p :: !IsCutAt(s, p)
    ensures SplitTopLevel(s) == [s]
  {
    NoCutFrom(s, 0);
  }

  /** The sub-section that is moved out of the section that holds it. */
  const Marker: string := "## Latest unstable"
  const LatestUnstable: string := "Latest unstable"

  /** The dictionary writes one section makes: its stripped first line is the
      title; when the body holds `## Latest unstable`, the text before the first
      occurrence is written under the title and the text after it under
      `Latest unstable`; otherwise the whole stripped body is written. */
  function ChunkWrites(sec: string): (w: seq<(string, string)>)
    ensures 1 <= |w| <= 2
    ensures IsStripped(w[0].0) && '\n' !in w[0].0
    ensures !Contains(w[0].1, Marker)
    ensures |w| == 2 ==> w[1].0 == LatestUnstable
    ensures IsStripped(w[0].1) && (|w| == 2 ==> IsStripped(w[1].1))
  {
    var lines := Partition(sec, "\n");
    var title := TitleOf(lines.0);
    var content := lines.2;
    if Contains(content, Marker) then
      var parts := Partition(content, Marker);
      [(title, HostBody(parts.0)), (LatestUnstable, Strip(parts.2))]
    else
      [(title, HostBody(content))]
  }

  /** The title a first line gives: stripped, and a single line. */
  function TitleOf(line: string): (t: string)
    ensures IsStripped(t) && (!Contains(line, "\n") ==> '\n' !in t)
  {
    OccurrenceAfterStrip(line, "\n");
    ContainsChar(Strip(line), '\n');
    Strip(line)
  }

  /** The body kept under a section's own title: stripped, and free of the marker
      whenever the text it comes from is. */
  function HostBody(text: string): (b: string)
    ensures IsStripped(b) && (!Contains(text, Marker) ==> !Contains(b, Marker))
  {
    OccurrenceAfterStrip(text, Marker);
    Strip(text)
  }

  /** A section that is a single line is a title with an empty body. */
  lemma ChunkWithoutNewline(sec: string)
    requires '\n' !in sec
    ensures |ChunkWrites(sec)| == 1
    ensures ChunkWrites(sec)[0].0 == Strip(sec) && ChunkWrites(sec)[0].1 == ""
  {
    ContainsChar(sec, '\n');
    assert !Contains("", Marker);
  }

  /** A section that is a first line, a line feed and a body: the title is the
      first line stripped, and the body goes whole, or split at the first
      `## Latest unstable`, into the writes. */
  lemma ChunkOfLines(line: string, body: string)
    requires '\n' !in line
    ensures ChunkWrites(line + "\n" + body)[0].0 == Strip(line)
    ensures !Contains(body, Marker) ==>
              |ChunkWrites(line + "\n" + body)| == 1 && ChunkWrites(line + "\n" + body)[0].1 == Strip(body)
    ensures Contains(body, Marker) ==>
              && |ChunkWrites(line + "\n" + body)| == 2
              && ChunkWrites(line + "\n" + body)[0].1 == Strip(Partition(body, Marker).0)
              && ChunkWrites(line + "\n" + body)[1].1 == Strip(Partition(body, Marker).2)
  {
    PartitionAtChar(line + "\n" + body, '\n', line, body);
  }

  /** All the writes the sections make, in order. */
  function Writes(chunks: seq<string>): (w: seq<(string, string)>)
    ensures |chunks| <= |w| <= 2 * |chunks|
  {
    if chunks == [] then []
    else Writes(chunks[..|chunks| - 1]) + ChunkWrites(chunks[|chunks| - 1])
  }

  /** The `parsed` dictionary after the loop over the sections. */
  function BuildParsed(chunks: seq<string>): Dict<string, string> {
    if chunks == [] then []
    else UpsertAll(BuildParsed(chunks[..|chunks| - 1]), ChunkWrites(chunks[|chunks| - 1]))
  }

  /** One more section: its writes are carried out on the dictionary so far. */
  lemma BuildParsedStep(chunks: seq<string>, j: nat)
    requires j < |chunks|
    ensures BuildParsed(chunks[..j + 1]) == UpsertAll(BuildParsed(chunks[..j]), ChunkWrites(chunks[j]))
  {
    assert chunks[..j + 1][..j] == chunks[..j];
  }

  /** The section loop carries out the sections' writes in order. */
  lemma {:induction false} BuildParsedWrites(chunks: seq<string>)
    ensures BuildParsed(chunks) == UpsertAll([], Writes(chunks))
  {
    if chunks != [] {
      var init := chunks[..|chunks| - 1];
      BuildParsedWrites(init);
      UpsertAllAppend([], Writes(init), ChunkWrites(chunks[|chunks| - 1]));
    }
  }

  /** The parsed dictionary holds each title once, in order of first appearance,
      with the body its last section gave it; the `Latest unstable` bodies lifted
      out of earlier sections are overwritten the same way. */
  lemma ParsedSections(chunks: seq<string>)
    ensures Keys(BuildParsed(chunks)) == Dedup(Keys(Writes(chunks)))
    ensures DistinctKeys(BuildParsed(chunks))
    ensures forall t :: Get(BuildParsed(chunks), t) == LastWrite(Writes(chunks), t)
  {
    BuildParsedWrites(chunks);
    UpsertAllFromEmpty(Writes(chunks));
  }
}

/**
 Re-assembling the parsed sections: the preamble, cleared of `##` at the start
 of its lines, opens the "about" text; every dictionary entry is then rendered
 as a heading line and its body, and appended to "usage" when its title is one
 of the usage titles and to "about" otherwise.
 */
module SectionRouter {
  import opened PyStrings
  import opened OrderedDict
  import opened HeadingNormalizer
  import opened SectionSplitter

  /** The titles whose sections make up the usage text. */
  const UsageTitles: seq<string> := ["How to use this image", "Image Variants"]

  predicate IsUsageTitle(title: string) {
    title in UsageTitles
  }

  /** `##` for the lifted `Latest unstable` section, `#` for every other title. */
  function HeadingPrefix(title: string): string {
    if title == LatestUnstable then "##" else "#"
  }

  /** One section as it is appended: heading line, body, blank line. */
  function RenderSection(title: string, body: string): string {
    HeadingPrefix(title) + " " + title + "\n" + body + "\n\n"
  }

  /** The rendered sections of `entries`, in order. */
  function RenderAll(entries: Dict<string, string>): string {
    if entries == [] then ""
    else
      var last := entries[|entries| - 1];
      RenderAll(entries[..|entries| - 1]) + RenderSection(last.0, last.1)
  }

  /** The entries with a usage title, in dictionary order. */
  function UsageEntries(d: Dict<string, string>): (r: Dict<string, string>)
    ensures |r| <= |d|
  {
    if d == [] then []
    else if IsUsageTitle(d[|d| - 1].0) then UsageEntries(d[..|d| - 1]) + [d[|d| - 1]]
    else UsageEntries(d[..|d| - 1])
  }

  /** The entries with any other title, in dictionary order. */
  function AboutEntries(d: Dict<string, string>): (r: Dict<string, string>)
    ensures |r| <= |d|
  {
    if d == [] then []
    else if IsUsageTitle(d[|d| - 1].0) then AboutEntries(d[..|d| - 1])
    else AboutEntries(d[..|d| - 1]) + [d[|d| - 1]]
  }

  /** The two filters split the dictionary: every entry goes to exactly one side,
      usage titles to the usage side only and all other titles to the about side
      only. */
  lemma {:induction false} EntriesPartition(d: Dict<string, string>)
    ensures multiset(AboutEntries(d)) + multiset(UsageEntries(d)) == multiset(d)
    ensures |AboutEntries(d)| + |UsageEntries(d)| == |d|
    ensures forall e :: e in UsageEntries(d) ==> e in d && IsUsageTitle(e.0)
    ensures forall e :: e in AboutEntries(d) ==> e in d && !IsUsageTitle(e.0)
  {
    if d != [] {
      var init := d[..|d| - 1];
      var e := d[|d| - 1];
      EntriesPartition(init);
      assert d == init + [e];
      assert multiset(d) == multiset(init) + multiset{e};
      assert forall x :: x in init ==> x in d;
    }
  }

  /** The routing loop: starting from `seed` and an empty usage text, each entry's
      rendered section is appended to one of the two texts. */
  function Route(seed: string, d: Dict<string, string>): (r: (string, string))
    ensures |seed| <= |r.0|
  {
    if d == [] then (seed, "")
    else
      var before := Route(seed, d[..|d| - 1]);
      var e := d[|d| - 1];
      var section := RenderSection(e.0, e.1);
      if IsUsageTitle(e.0) then (before.0, before.1 + section)
      else (before.0 + section, before.1)
  }

  /** One entry more: its section is appended to the text its title selects. */
  lemma RouteStep(seed: string, d: Dict<string, string>, j: nat)
    requires j < |d|
    ensures IsUsageTitle(d[j].0) ==>
              Route(seed, d[..j + 1]).0 == Route(seed, d[..j]).0
              && Route(seed, d[..j + 1]).1 == Route(seed, d[..j]).1 + RenderSection(d[j].0, d[j].1)
    ensures !IsUsageTitle(d[j].0) ==>
              Route(seed, d[..j + 1]).0 == Route(seed, d[..j]).0 + RenderSection(d[j].0, d[j].1)
              && Route(seed, d[..j + 1]).1 == Route(seed, d[..j]).1
  {
    assert d[..j + 1][..j] == d[..j];
  }

  /** With no sections, "usage" is empty and "about" the preamble alone, cleared
      of its `##` marks: the blank line after it is stripped away. */
  lemma RouteNoSections(preamble: string)
    ensures Strip(Route(SeedAbout(preamble), []).0) == Strip(StripMarks(preamble, true))
    ensures Strip(Route(SeedAbout(preamble), []).1) == ""
  {
    if preamble != [] {
      StripTrailingSpace(StripMarks(preamble, true), "\n\n");
    }
  }

  /** Routing is filtering: "about" is the seed followed by the about entries and
      "usage" the usage entries, each rendered in dictionary order. */
  lemma {:induction false} RouteFilters(seed: string, d: Dict<string, string>)
    ensures Route(seed, d).0 == seed + RenderAll(AboutEntries(d))
    ensures Route(seed, d).1 == RenderAll(UsageEntries(d))
  {
    if d != [] {
      var init := d[..|d| - 1];
      RouteFilters(seed, init);
      var e := d[|d| - 1];
      if IsUsageTitle(e.0) {
        RenderAllSnoc(UsageEntries(init), e);
      } else {
        RenderAllSnoc(AboutEntries(init), e);
        assert seed + RenderAll(AboutEntries(init)) + RenderSection(e.0, e.1)
            == seed + (RenderAll(AboutEntries(init)) + RenderSection(e.0, e.1));
      }
    }
  }

  /** Rendering one entry more appends its section. */
  lemma RenderAllSnoc(entries: Dict<string, string>, e: (string, string))
    ensures RenderAll(entries + [e]) == RenderAll(entries) + RenderSection(e.0, e.1)
  {
    assert (entries + [e])[..|entries|] == entries;
  }

  /** Rendering two runs of entries one after the other is rendering their
      concatenation: each entry's section is written on its own. */
  lemma {:induction false} RenderAllAppend(a: Dict<string, string>, b: Dict<string, string>)
    ensures RenderAll(a + b) == RenderAll(a) + RenderAll(b)
    decreases |b|
  {
    if b == [] {
      assert a + b == a;
    } else {
      var init, e := b[..|b| - 1], b[|b| - 1];
      var section := RenderSection(e.0, e.1);
      assert RenderAll(a + b) == RenderAll(a + init) + section by {
        assert a + b == (a + init) + [e];
        RenderAllSnoc(a + init, e);
      }
      assert RenderAll(b) == RenderAll(init) + section by {
        assert b == init + [e];
        RenderAllSnoc(init, e);
      }
      RenderAllAppend(a, init);
    }
  }


  /** The heading of a section is of level two exactly for `Latest unstable`. */
  lemma SectionHeadingLevel(title: string, body: string)
    ensures RenderSection(title, body)[0] == '#'
    ensures RenderSection(title, body)[1] == '#' <==> title == LatestUnstable
  {
  }

  /** Every section written to usage opens with `# `: no usage title is
      `Latest unstable`. */
  lemma UsageHeadings(title: string, body: string)
    requires IsUsageTitle(title)
    ensures RenderSection(title, body)[..2] == "# "
  {
  }

  /** `^##` matches at `p`, `lineStart` telling whether position 0 starts a line. */
  predicate IsMarkAt(s: string, p: nat, lineStart: bool) {
    p + 2 <= |s| && (if p == 0 then lineStart else s[p - 1] == '\n') && s[p] == '#' && s[p + 1] == '#'
  }

  /** `re.sub(r"^##\s*", "", s, flags=re.MULTILINE)` on the rest `s` of a text,
      `lineStart` telling whether the first position of `s` starts a line of the
      original text. Each match takes `##` and the whitespace after it, line feeds
      included, and the scan goes on after the match; whether that position
      starts a line is read from the original text, so a match that swallowed a
      line feed leaves the scan at a line start. */
  function StripMarks(s: string, lineStart: bool): (r: string)
    ensures |r| <= |s|
    decreases |s|
  {
    if s == [] then []
    else if lineStart && |s| >= 2 && s[0] == '#' && s[1] == '#' then
      var e := 2 + SpaceRun(s[2..]);
      StripMarks(s[e..], s[e - 1] == '\n')
    else [s[0]] + StripMarks(s[1..], s[0] == '\n')
  }

  /** Text with no line opening with `##` comes through unchanged. */
  lemma {:induction false} StripMarksWithoutMarks(s: string, lineStart: bool)
    requires forall p :: !IsMarkAt(s, p, lineStart)
    ensures StripMarks(s, lineStart) == s
    decreases |s|
  {
    if s != [] {
      assert !IsMarkAt(s, 0, lineStart);
      var t := s[1..];
      var feed := s[0] == '\n';
      forall p: nat
        ensures IsMarkAt(t, p, feed) ==> IsMarkAt(s, p + 1, lineStart)
      {
        if p + 2 <= |t| {
          assert t[p] == s[p + 1] && t[p + 1] == s[p + 2];
          assert p > 0 ==> t[p - 1] == s[p];
        }
      }
      StripMarksWithoutMarks(t, feed);
    }
  }

  /** A line that does not open with `##` is copied as it stands, and the next
      line starts afresh: `^` only ever matches at line starts. */
  lemma {:induction false} StripMarksLine(line: string, rest: string, lineStart: bool)
    requires '\n' !in line
    requires !(lineStart && |line| >= 2 && line[0] == '#' && line[1] == '#')
    ensures StripMarks(line + "\n" + rest, lineStart) == line + "\n" + StripMarks(rest, true)
    decreases |line|
  {
    var done := StripMarks(rest, true);
    if line == [] {
      assert StripMarks(line + "\n" + rest, lineStart) == "\n" + done by {
        assert line + "\n" + rest == ['\n'] + rest;
        StripMarksKeeps('\n', rest, lineStart);
      }
    } else {
      var t := line[1..] + "\n" + rest;
      assert StripMarks(line + "\n" + rest, lineStart) == [line[0]] + StripMarks(t, false) by {
        assert line + "\n" + rest == [line[0]] + t by {
          assert line == [line[0]] + line[1..];
        }
        assert t[0] == if |line| >= 2 then line[1] else '\n';
        StripMarksKeeps(line[0], t, lineStart);
      }
      assert StripMarks(t, false) == line[1..] + "\n" + done by {
        StripMarksLine(line[1..], rest, false);
      }
      assert [line[0]] + (line[1..] + "\n" + done) == line + "\n" + done by {
        assert line == [line[0]] + line[1..];
      }
    }
  }


  /** A character that does not open a `##` mark is kept. */
  lemma StripMarksKeeps(c: char, t: string, lineStart: bool)
    requires !(lineStart && c == '#' && t != [] && t[0] == '#')
    ensures StripMarks([c] + t, lineStart) == [c] + StripMarks(t, c == '\n')
  {
    assert ([c] + t)[1..] == t;
  }


  lemma {:induction false} SpaceRunOf(w: string, t: string)
    requires AllSpace(w) && (t == [] || !IsSpace(t[0]))
    ensures SpaceRun(w + t) == |w|
    decreases |w|
  {
    if w != [] {
      assert (w + t)[1..] == w[1..] + t;
      SpaceRunOf(w[1..], t);
    } else {
      assert w + t == t;
    }
  }

  /** At a line start, `##` goes together with all the whitespace after it, line
      feeds included; when that whitespace ends with a line feed, the text after
      it is again at a line start, so a `##` there is removed too. */
  lemma StripMarksAtMark(w: string, t: string)
    requires AllSpace(w) && (t == [] || !IsSpace(t[0]))
    ensures StripMarks("##" + w + t, true) == StripMarks(t, w != [] && w[|w| - 1] == '\n')
  {
    var s := "##" + w + t;
    assert s[2..] == w + t;
    SpaceRunOf(w, t);
    assert s[2 + |w|..] == t;
    assert w != [] ==> s[2 + |w| - 1] == w[|w| - 1];
  }

  /** The text `about` starts from: empty for an empty preamble, otherwise the
      preamble without its `##` marks, then a blank line. */
  function SeedAbout(preamble: string): (seed: string)
    ensures preamble == [] <==> seed == []
  {
    if preamble == [] then [] else StripMarks(preamble, true) + "\n\n"
  }
}

/**
 The underlined-heading normaliser of both description scripts: every match of
 the multiline pattern `^[ \t]*(.+?)\s*\r?\n[ \t]*-{3,}[ \t]*\r?\n` is replaced
 by `## <group 1>\n\n`, scanning left to right as `re.sub` does.

 The pattern is anchored at line starts, so the scan works line by line: at a
 line start either a heading is matched (and the scan resumes after the line
 feed that ends its underline, again a line start) or the whole line is copied.
 At a line start the match succeeds or fails depending only on the text after
 the title line's own line feed; the lazy group then captures the title line
 without its indentation and without trailing whitespace. Two quirks of the
 pattern are kept: `\s*` lets blank lines stand between title and underline, and
 a title line of spaces and tabs only still matches, because `[ \t]*` gives back
 its last character to `(.+?)`.

 The scanning functions promise only the bounds their callers need; what they
 compute on particular shapes of text is stated by the lemmas further down.
 */
module HeadingNormalizer {
  import opened PyStrings

  /** The number of spaces and tabs at the start of `s` (`[ \t]*`). */
  function BlankRun(s: string): (n: nat)
    ensures n <= |s|
  {
    if s != [] && IsBlank(s[0]) then 1 + BlankRun(s[1..]) else 0
  }

  /** The number of whitespace characters at the start of `s` (`\s*`). */
  function SpaceRun(s: string): (n: nat)
    ensures n <= |s|
  {
    if s != [] && IsSpace(s[0]) then 1 + SpaceRun(s[1..]) else 0
  }

  /** The number of hyphens at the start of `s` (`-*`). */
  function HyphenRun(s: string): (n: nat)
    ensures n <= |s|
    ensures n > 0 ==> s[0] == '-'
  {
    if s != [] && s[0] == '-' then 1 + HyphenRun(s[1..]) else 0
  }

  /** Where the last line of `s` starts: just after its last line feed, or at
      0 when it has none. */
  function LastLineStart(s: string): (n: nat)
    ensures n <= |s|
    ensures n > 0 ==> s[n - 1] == '\n'
  {
    if s == [] then 0
    else if s[|s| - 1] == '\n' then |s|
    else LastLineStart(s[..|s| - 1])
  }

  /** `-{3,}[ \t]*\r?\n` at the start of `s`: the length of the underline, if `s`
      starts with one. */
  function UnderlineLength(s: string): (r: Option<nat>)
    ensures r.Some? ==> 4 <= r.value <= |s| && s[r.value - 1] == '\n' && s[0] == '-'
  {
    var h := HyphenRun(s);
    if h < 3 then None
    else
      var b := h + BlankRun(s[h..]);
      if b < |s| && s[b] == '\n' then Some(b + 1)
      else if b + 1 < |s| && s[b] == '\r' && s[b + 1] == '\n' then Some(b + 2)
      else None
  }

  /** `\s*\r?\n[ \t]*-{3,}[ \t]*\r?\n` right after the title line's line feed,
      that feed already consumed: whitespace up to the first other character,
      whose last line break leaves only spaces and tabs before an underline.
      The result is the length of `r` the match consumes. */
  function AfterTitle(r: string): (n: Option<nat>)
    ensures n.Some? ==> 4 <= n.value <= |r| && r[n.value - 1] == '\n'
    ensures n.Some? ==> SpaceRun(r) < |r| && r[SpaceRun(r)] == '-'
  {
    AfterGap(r, SpaceRun(r))
  }

  /** The rest of `AfterTitle` once the whitespace run `r[..w]` is known: the
      last line of that run must hold only spaces and tabs, and an underline
      must start at `w`. */
  function AfterGap(r: string, w: nat): (n: Option<nat>)
    requires w <= |r|
    ensures n.Some? ==> 4 <= n.value <= |r| && r[n.value - 1] == '\n'
    ensures n.Some? ==> w < |r| && r[w] == '-'
  {
    var indentStart := LastLineStart(r[..w]);
    var underline := UnderlineLength(r[w..]);
    if BlankRun(r[indentStart..w]) == w - indentStart && underline.Some? then
      assert r[w] == r[w..][0] && r[w + underline.value - 1] == r[w..][underline.value - 1];
      Some(w + underline.value)
    else None
  }

  /** Group 1 of the pattern for a title line `line` (its line feed excluded):
      the line without its indentation and trailing whitespace, or, when nothing
      else is left, the single character `(.+?)` must still take. */
  function CapturedTitle(line: string): (title: string)
    requires line != [] && '\n' !in line
    ensures title != [] && '\n' !in title
  {
    var indent := BlankRun(line);
    var start := if indent == |line| then |line| - 1 else indent;
    var trimmed := TrimEnd(line[start..]);
    if trimmed == [] then line[start..start + 1]
    else
      assert trimmed == line[start..start + |trimmed|];
      trimmed
  }

  /** The match of the underline pattern at the start of `s`, which is a line
      start: the captured title and the length of the text replaced. The title is
      never empty, never spans lines, and the replaced text ends with a line feed. */
  function MatchUnderlined(s: string): (r: Option<(string, nat)>)
    ensures r.Some? ==> 0 < r.value.1 <= |s| && s[r.value.1 - 1] == '\n'
    ensures r.Some? ==> r.value.0 != [] && '\n' !in r.value.0
  {
    var lf := FindChar(s, '\n');
    if lf.None? || lf.value == 0 then None
    else
      var n := AfterTitle(s[lf.value + 1..]);
      if n.None? then None
      else Some((CapturedTitle(s[..lf.value]), lf.value + 1 + n.value))
  }

  /** The length of the first line of `s`, its line feed included. */
  function LineLength(s: string): (k: nat)
    requires s != []
    ensures 0 < k <= |s|
    ensures '\n' !in s[..k - 1] && (k < |s| ==> s[k - 1] == '\n')
  {
    var lf := FindChar(s, '\n');
    if lf.None? then |s| else lf.value + 1
  }

  /** `re.sub(r'(?m)^[ \t]*(.+?)\s*\r?\n[ \t]*-{3,}[ \t]*\r?\n', r'## \1\n\n', s)`,
      for `s` starting at a line start. */
  function Normalize(s: string): string
    decreases |s|
  {
    if s == [] then []
    else
      var heading := MatchUnderlined(s);
      if heading.Some? then
        "## " + heading.value.0 + "\n\n" + Normalize(s[heading.value.1..])
      else
        var k := LineLength(s);
        s[..k] + Normalize(s[k..])
  }

  /** Every underline is made of hyphens: a match needs one in the text. */
  lemma MatchNeedsHyphen(s: string)
    ensures MatchUnderlined(s).Some? ==> '-' in s
  {
    if MatchUnderlined(s).Some? {
      var lf := FindChar(s, '\n').value;
      var r := s[lf + 1..];
      var w := SpaceRun(r);
      assert r[w] == s[lf + 1 + w];
    }
  }

  /** Text without a single hyphen holds no underline, and passes unchanged. */
  lemma {:induction false} NormalizeWithoutHyphens(s: string)
    requires '-' !in s
    ensures Normalize(s) == s
    decreases |s|
  {
    if s != [] {
      MatchNeedsHyphen(s);
      var k := LineLength(s);
      assert '-' !in s[k..];
      NormalizeWithoutHyphens(s[k..]);
      assert s == s[..k] + s[k..];
    }
  }

  /** An underlined heading, its title line possibly indented and with trailing
      whitespace, whitespace-only lines possibly between it and an underline of
      three or more hyphens, itself possibly indented and followed by spaces or
      tabs, ended by `\n` or `\r\n`: the pattern matches at its line start,
      captures exactly the title and consumes the text up to `rest`, so the scan
      emits `## <title>\n\n` and resumes with `rest`. */
  lemma UnderlinedHeading(indent: string, title: string, trailing: string, gap: string,
                          uindent: string, dashes: string, utrail: string, eol: string, rest: string)
    requires AllBlank(indent) && AllSpace(trailing) && '\n' !in trailing
    requires title != [] && '\n' !in title && !IsBlank(title[0]) && !IsSpace(title[|title| - 1])
    requires AllSpace(gap) && (gap == [] || gap[|gap| - 1] == '\n')
    requires AllBlank(uindent) && AllBlank(utrail) && (eol == "\n" || eol == "\r\n")
    requires |dashes| >= 3 && forall i :: 0 <= i < |dashes| ==> dashes[i] == '-'
    ensures var s := (indent + title + trailing) + "\n" + (gap + (uindent + dashes + utrail + eol) + rest);
            && MatchUnderlined(s).Some?
            && MatchUnderlined(s).value.0 == title
            && s[MatchUnderlined(s).value.1..] == rest
            && Normalize(s) == "## " + MatchUnderlined(s).value.0 + "\n\n" + Normalize(s[MatchUnderlined(s).value.1..])
  {
    var line := indent + title + trailing;
    var consumed := gap + (uindent + dashes + utrail + eol);
    CapturedTitleOf(indent, title, trailing);
    UnderlineAfterGap(gap, uindent, dashes, utrail, eol, rest);
    var s := line + "\n" + (consumed + rest);
    HeadingPieces(line, consumed, rest);
    HeadingMatch(s, |line|, title, |consumed|, rest);
  }


  /** Conversely, every match has that shape: a title line ended by the first
      line feed, whitespace-only lines, an indentation of spaces and tabs, three
      or more hyphens, spaces and tabs, and `\n` or `\r\n`; the match captures
      the title of that first line and consumes everything before `rest`. */
  lemma MatchShape(s: string)
      returns (lf: nat, gap: string, uindent: string, dashes: string, utrail: string, eol: string, rest: string)
    requires MatchUnderlined(s).Some?
    ensures 0 < lf < |s| && s[lf] == '\n' && '\n' !in s[..lf]
    ensures s[lf + 1..] == gap + (uindent + dashes + utrail + eol) + rest
    ensures AllSpace(gap) && (gap == [] || gap[|gap| - 1] == '\n')
    ensures AllBlank(uindent) && AllBlank(utrail) && (eol == "\n" || eol == "\r\n")
    ensures |dashes| >= 3 && forall i :: 0 <= i < |dashes| ==> dashes[i] == '-'
    ensures MatchUnderlined(s).value.0 == CapturedTitle(s[..lf])
    ensures MatchUnderlined(s).value.1 == |s| - |rest|
  {
    lf := FindChar(s, '\n').value;
    var r := s[lf + 1..];
    assert |r| == |s| - lf - 1;
    assert && MatchUnderlined(s).value.0 == CapturedTitle(s[..lf])
           && MatchUnderlined(s).value.1 == lf + 1 + AfterTitle(r).value by {
      MatchAtLine(s, lf);
    }
    gap, uindent, dashes, utrail, eol, rest := AfterTitleShape(r);
  }

  /** The same, stated on positions: the title line ends at `lf`, the rest of the
      match takes `n` characters after it. */
  lemma HeadingMatch(s: string, lf: nat, title: string, n: nat, rest: string)
    requires 0 < lf < |s| && s[lf] == '\n' && '\n' !in s[..lf] && CapturedTitle(s[..lf]) == title
    requires AfterTitle(s[lf + 1..]).Some? && AfterTitle(s[lf + 1..]).value == n
    requires s[lf + 1 + n..] == rest
    ensures && MatchUnderlined(s).Some?
            && MatchUnderlined(s).value.0 == title
            && s[MatchUnderlined(s).value.1..] == rest
            && Normalize(s) == "## " + MatchUnderlined(s).value.0 + "\n\n" + Normalize(s[MatchUnderlined(s).value.1..])
  {
    MatchAtLine(s, lf);
    NormalizeAtMatch(s);
  }

  /** The underline rule wants three hyphens: two are copied through as text. */
  lemma TwoHyphensAreNoUnderline(title: string, rest: string)
    requires title != [] && '\n' !in title
    ensures MatchUnderlined(title + "\n" + ("--\n" + rest)).None?
  {
    var s := title + "\n" + ("--\n" + rest);
    HeadingPieces(title, "--\n", rest);
    TwoHyphens(rest);
    ShortUnderline("--\n" + rest);
    NoMatchAt(s, |title|);
  }

  lemma TwoHyphens(rest: string)
    ensures HyphenRun("--\n" + rest) == 2
  {
    assert "--\n" + rest == "--" + ("\n" + rest);
    HyphenRunOf("--", "\n" + rest);
  }

  lemma NoMatchAt(s: string, lf: nat)
    requires 0 < lf < |s| && s[lf] == '\n' && '\n' !in s[..lf]
    requires AfterTitle(s[lf + 1..]).None?
    ensures MatchUnderlined(s).None?
  {
    MatchAtLine(s, lf);
  }

  // Helpers for the lemmas above.

  /** One step of the scan over a matched heading. */
  lemma NormalizeAtMatch(s: string)
    requires MatchUnderlined(s).Some?
    ensures MatchUnderlined(s).value.1 <= |s|
    ensures Normalize(s) == "## " + MatchUnderlined(s).value.0 + "\n\n" + Normalize(s[MatchUnderlined(s).value.1..])
  {
  }

  /** At a line start, the match is decided by what follows the first line feed. */
  lemma MatchAtLine(s: string, lf: nat)
    requires 0 < lf < |s| && s[lf] == '\n' && '\n' !in s[..lf]
    ensures MatchUnderlined(s).Some? == AfterTitle(s[lf + 1..]).Some?
    ensures AfterTitle(s[lf + 1..]).Some? ==>
              && MatchUnderlined(s).value.0 == CapturedTitle(s[..lf])
              && MatchUnderlined(s).value.1 == lf + 1 + AfterTitle(s[lf + 1..]).value
  {
    FindCharIs(s, '\n', lf);
  }

  /** A run of fewer than three hyphens directly after the title line's line
      feed (no blank line, no indentation before it): no match. */
  lemma ShortUnderline(r: string)
    requires r != [] && r[0] == '-' && HyphenRun(r) < 3
    ensures AfterTitle(r).None?
  {
    assert SpaceRun(r) == 0;
    assert r[0..] == r;
  }

  lemma UnderlineAfterGap(gap: string, uindent: string, dashes: string, utrail: string, eol: string, rest: string)
    requires AllSpace(gap) && (gap == [] || gap[|gap| - 1] == '\n')
    requires AllBlank(uindent) && AllBlank(utrail) && (eol == "\n" || eol == "\r\n")
    requires |dashes| >= 3 && forall i :: 0 <= i < |dashes| ==> dashes[i] == '-'
    ensures AfterTitle(gap + (uindent + dashes + utrail + eol) + rest)
            == Some(|gap + (uindent + dashes + utrail + eol)|)
  {
    var tail := dashes + utrail + eol + rest;
    UnderlineLengthOf(dashes, utrail, eol, rest);
    assert tail[0] == '-' by {
      assert tail[0] == dashes[0];
    }
    HyphenIsNotSpace();
    Regroup(gap, uindent, dashes, utrail, eol, rest);
    GapThenUnderline(gap + (uindent + dashes + utrail + eol) + rest, gap, uindent, tail,
                     |dashes + utrail + eol|, |gap + (uindent + dashes + utrail + eol)|);
  }

  /** Whitespace ending in a line feed (or nothing), spaces and tabs, then an
      underline. */
  lemma GapThenUnderline(r: string, gap: string, uindent: string, tail: string, n: nat, m: nat)
    requires r == gap + uindent + tail && m == |gap| + |uindent| + n
    requires AllSpace(gap) && (gap == [] || gap[|gap| - 1] == '\n') && AllBlank(uindent)
    requires tail != [] && !IsSpace(tail[0]) && UnderlineLength(tail) == Some(n)
    ensures AfterTitle(r) == Some(m)
  {
    var w := |gap| + |uindent|;
    ThreePieces(gap, uindent, tail);
    SpacesThenBlanks(gap, uindent);
    SpaceRunAt(r, w);
    LastFeedAt(gap, uindent);
    BlankRunOfBlanks(uindent);
    AfterTitleAt(r, |gap|, w, n, m);
  }

  /** `AfterTitle` on the positions it computes. */
  lemma AfterTitleAt(r: string, g: nat, w: nat, n: nat, m: nat)
    requires g <= w <= |r| && SpaceRun(r) == w && m == w + n
    requires LastLineStart(r[..w]) == g
    requires BlankRun(r[g..w]) == w - g && UnderlineLength(r[w..]) == Some(n)
    ensures AfterTitle(r) == Some(m)
  {
    AfterGapAt(r, g, w, n, m);
  }

  lemma AfterGapAt(r: string, g: nat, w: nat, n: nat, m: nat)
    requires g <= w <= |r| && m == w + n
    requires LastLineStart(r[..w]) == g
    requires BlankRun(r[g..w]) == w - g && UnderlineLength(r[w..]) == Some(n)
    ensures AfterGap(r, w) == Some(m)
  {
  }

  lemma ThreePieces(a: string, b: string, c: string)
    ensures var r := a + b + c;
            && r[..|a| + |b|] == a + b && r[|a|..|a| + |b|] == b && r[|a| + |b|..] == c
            && (c != [] ==> r[|a| + |b|] == c[0])
  {
  }

  lemma SpacesThenBlanks(gap: string, uindent: string)
    requires AllSpace(gap) && AllBlank(uindent)
    ensures AllSpace(gap + uindent) && '\n' !in uindent
  {
    assert forall i :: 0 <= i < |uindent| ==> IsBlank(uindent[i]) && uindent[i] != '\n';
  }

  /** Where the title line, its line feed, the consumed text and the rest sit. */
  lemma HeadingPieces(line: string, consumed: string, rest: string)
    ensures var s := line + "\n" + (consumed + rest);
            && |line| < |s| && s[..|line|] == line && s[|line|] == '\n'
            && s[|line| + 1..] == consumed + rest && s[|line| + 1 + |consumed|..] == rest
  {
    var s := line + "\n" + (consumed + rest);
    assert s[|line| + 1..] == consumed + rest;
    assert s[|line| + 1 + |consumed|..] == (consumed + rest)[|consumed|..];
  }

  /** The last line feed of a gap followed by text without one. */
  lemma {:induction false} LastFeedAt(t: string, b: string)
    requires (t == [] || t[|t| - 1] == '\n') && '\n' !in b
    ensures LastLineStart(t + b) == |t|
    decreases |b|
  {
    if b == [] {
      assert t + b == t;
    } else {
      var front := b[..|b| - 1];
      assert (t + b)[..|t + b| - 1] == t + front;
      assert (t + b)[|t + b| - 1] == b[|b| - 1];
      LastFeedAt(t, front);
    }
  }

  lemma {:induction false} SpaceRunAt(r: string, g: nat)
    requires g < |r| && AllSpace(r[..g]) && !IsSpace(r[g])
    ensures SpaceRun(r) == g
    decreases g
  {
    if g > 0 {
      assert IsSpace(r[..g][0]);
      assert r[1..][..g - 1] == r[1..g];
      SpaceRunAt(r[1..], g - 1);
    }
  }

  lemma {:induction false} BlankRunOfBlanks(b: string)
    requires AllBlank(b)
    ensures BlankRun(b) == |b|
    decreases |b|
  {
    if b != [] {
      BlankRunOfBlanks(b[1..]);
    }
  }

  lemma UnderlineLengthOf(dashes: string, utrail: string, eol: string, rest: string)
    requires |dashes| >= 3 && forall i :: 0 <= i < |dashes| ==> dashes[i] == '-'
    requires AllBlank(utrail) && (eol == "\n" || eol == "\r\n")
    ensures UnderlineLength(dashes + utrail + eol + rest) == Some(|dashes + utrail + eol|)
  {
    var t := utrail + eol + rest;
    var u := dashes + t;
    assert u == dashes + utrail + eol + rest;
    assert t[0] != '-' by {
      if utrail != [] {
        assert t[0] == utrail[0];
      } else {
        assert t[0] == eol[0];
      }
    }
    HyphenRunOf(dashes, t);
    assert u[|dashes|..] == t;
    assert t == utrail + (eol + rest);
    BlankRunOf(utrail, eol + rest);
    var b := |dashes| + |utrail|;
    assert u[b] == eol[0];
    if eol == "\r\n" {
      assert u[b + 1] == '\n';
    }
  }

  /** The pieces `AfterTitle` consumes, read back from its result. */
  lemma AfterTitleShape(r: string)
      returns (gap: string, uindent: string, dashes: string, utrail: string, eol: string, rest: string)
    requires AfterTitle(r).Some?
    ensures r == gap + (uindent + dashes + utrail + eol) + rest
    ensures AllSpace(gap) && (gap == [] || gap[|gap| - 1] == '\n')
    ensures AllBlank(uindent) && AllBlank(utrail) && (eol == "\n" || eol == "\r\n")
    ensures |dashes| >= 3 && forall i :: 0 <= i < |dashes| ==> dashes[i] == '-'
    ensures AfterTitle(r).value == |r| - |rest|
  {
    var w := SpaceRun(r);
    AfterTitleUnfold(r);
    gap, uindent := GapShape(r, w);
    dashes, utrail, eol, rest := UnderlineShape(r[w..]);
    Assemble(r, w, gap, uindent, dashes, utrail, eol, rest);
  }

  lemma Assemble(r: string, w: nat, gap: string, uindent: string, dashes: string, utrail: string, eol: string, rest: string)
    requires w <= |r| && r[..w] == gap + uindent && r[w..] == dashes + utrail + eol + rest
    ensures r == gap + (uindent + dashes + utrail + eol) + rest
  {
    assert r == r[..w] + r[w..];
    Regroup(gap, uindent, dashes, utrail, eol, rest);
  }

  lemma AfterTitleUnfold(r: string)
    requires AfterTitle(r).Some?
    ensures var w := SpaceRun(r);
            && AllSpace(r[..w])
            && BlankRun(r[LastLineStart(r[..w])..w]) == w - LastLineStart(r[..w])
            && UnderlineLength(r[w..]).Some?
            && AfterTitle(r).value == w + UnderlineLength(r[w..]).value
  {
    SpaceRunSpaces(r);
    assert AfterTitle(r) == AfterGap(r, SpaceRun(r));
  }

  /** A whitespace run whose last line holds only spaces and tabs: the lines
      before it, then that indentation. */
  lemma GapShape(r: string, w: nat) returns (gap: string, uindent: string)
    requires w <= |r| && AllSpace(r[..w])
    requires BlankRun(r[LastLineStart(r[..w])..w]) == w - LastLineStart(r[..w])
    ensures r[..w] == gap + uindent
    ensures AllSpace(gap) && (gap == [] || gap[|gap| - 1] == '\n') && AllBlank(uindent)
  {
    var i := LastLineStart(r[..w]);
    gap := r[..i];
    uindent := r[i..w];
    assert AllSpace(gap) by {
      forall k | 0 <= k < |gap| ensures IsSpace(gap[k]) {
        assert gap[k] == r[..w][k];
      }
    }
    if i > 0 {
      assert gap[|gap| - 1] == r[..w][i - 1];
    }
    BlankRunBlanks(uindent);
    assert uindent[..BlankRun(uindent)] == uindent;
    assert r[..w] == gap + uindent;
  }

  lemma Regroup(a: string, b: string, c: string, d: string, e: string, f: string)
    ensures a + (b + (c + d + e + f)) == a + (b + c + d + e) + f
    ensures a + b + (c + d + e + f) == a + (b + c + d + e) + f
    ensures (a + b) + (c + d + e + f) == a + (b + c + d + e) + f
    ensures |a| + |b| + |c + d + e| == |a + (b + c + d + e)|
  {
  }

  /** The pieces `UnderlineLength` consumes, read back from its result. */
  lemma UnderlineShape(u: string) returns (dashes: string, utrail: string, eol: string, rest: string)
    requires UnderlineLength(u).Some?
    ensures u == dashes + utrail + eol + rest
    ensures |dashes| >= 3 && forall i :: 0 <= i < |dashes| ==> dashes[i] == '-'
    ensures AllBlank(utrail) && (eol == "\n" || eol == "\r\n")
    ensures UnderlineLength(u).value == |u| - |rest|
  {
    var h := HyphenRun(u);
    HyphenRunHyphens(u);
    var b := h + BlankRun(u[h..]);
    BlankRunBlanks(u[h..]);
    dashes := u[..h];
    utrail := u[h..b];
    assert utrail == u[h..][..BlankRun(u[h..])];
    eol := if u[b] == '\n' then "\n" else "\r\n";
    rest := u[b + |eol|..];
    assert u[b..b + |eol|] == eol;
    assert u == u[..h] + u[h..b] + u[b..b + |eol|] + rest;
  }

  lemma {:induction false} SpaceRunSpaces(s: string)
    ensures AllSpace(s[..SpaceRun(s)])
    decreases |s|
  {
    if s != [] && IsSpace(s[0]) {
      SpaceRunSpaces(s[1..]);
      assert s[..SpaceRun(s)] == [s[0]] + s[1..][..SpaceRun(s[1..])];
    }
  }

  lemma {:induction false} BlankRunBlanks(s: string)
    ensures AllBlank(s[..BlankRun(s)])
    decreases |s|
  {
    if s != [] && IsBlank(s[0]) {
      BlankRunBlanks(s[1..]);
      assert s[..BlankRun(s)] == [s[0]] + s[1..][..BlankRun(s[1..])];
    }
  }

  lemma {:induction false} HyphenRunHyphens(s: string)
    ensures forall i :: 0 <= i < HyphenRun(s) ==> s[i] == '-'
    decreases |s|
  {
    if s != [] && s[0] == '-' {
      HyphenRunHyphens(s[1..]);
      forall i | 0 < i < HyphenRun(s) ensures s[i] == '-' {
        assert s[i] == s[1..][i - 1];
      }
    }
  }

  lemma CapturedTitleOf(indent: string, title: string, trailing: string)
    requires AllBlank(indent) && AllSpace(trailing) && '\n' !in trailing
    requires title != [] && '\n' !in title && !IsBlank(title[0]) && !IsSpace(title[|title| - 1])
    ensures indent + title + trailing != [] && '\n' !in indent + title + trailing
    ensures CapturedTitle(indent + title + trailing) == title
  {
    var line := indent + title + trailing;
    assert line == indent + (title + trailing);
    assert '\n' !in indent by {
      forall i | 0 <= i < |indent| ensures indent[i] != '\n' { assert IsBlank(indent[i]); }
    }
    BlankRunOf(indent, title + trailing);
    assert line[|indent|..] == title + trailing;
    TrimEndOf(title, trailing);
  }

  lemma {:induction false} BlankRunOf(indent: string, t: string)
    requires AllBlank(indent) && t != [] && !IsBlank(t[0])
    ensures BlankRun(indent + t) == |indent|
    decreases |indent|
  {
    if indent != [] {
      assert (indent + t)[1..] == indent[1..] + t;
      BlankRunOf(indent[1..], t);
    } else {
      assert indent + t == t;
    }
  }

  lemma TrimEndOf(t: string, trailing: string)
    requires AllSpace(trailing) && t != [] && !IsSpace(t[|t| - 1])
    ensures TrimEnd(t + trailing) == t
  {
    TrimEndTrailingSpace(t, trailing);
    assert TrimEnd(t) == t;
  }

  lemma {:induction false} HyphenRunOf(dashes: string, t: string)
    requires forall i :: 0 <= i < |dashes| ==> dashes[i] == '-'
    requires t != [] && t[0] != '-'
    ensures HyphenRun(dashes + t) == |dashes|
    decreases |dashes|
  {
    if dashes != [] {
      assert (dashes + t)[1..] == dashes[1..] + t;
      HyphenRunOf(dashes[1..], t);
    } else {
      assert dashes + t == t;
    }
  }
}

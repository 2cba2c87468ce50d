/**
 The few Python `str` operations the description scripts rely on, stated on
 `seq<char>`: the `isspace` whitespace set (which is also what `\s` matches in a
 `str` regular expression), `strip`, substring search as used by `in`,
 `partition` and `split(sep, 1)`, and `sep.join(parts)`.
 */
module PyStrings {

  datatype Option<T> = None | Some(value: T)

  /** Python's `str.isspace` for one character, and `\s` in a `str` pattern. */
  predicate IsSpace(c: char) {
    || ('\t' <= c <= '\r')
    || ('\U{1C}' <= c <= ' ')
    || c == '\U{85}' || c == '\U{A0}' || c == '\U{1680}'
    || ('\U{2000}' <= c <= '\U{200A}')
    || c == '\U{2028}' || c == '\U{2029}' || c == '\U{202F}' || c == '\U{205F}' || c == '\U{3000}'
  }

  lemma HyphenIsNotSpace()
    ensures !IsSpace('-')
  {
  }

  /** `[ \t]` in the description scripts' regular expressions. */
  predicate IsBlank(c: char) {
    c == ' ' || c == '\t'
  }

  predicate AllSpace(s: string) {
    forall i :: 0 <= i < |s| ==> IsSpace(s[i])
  }

  predicate AllBlank(s: string) {
    forall i :: 0 <= i < |s| ==> IsBlank(s[i])
  }

  /** Neither end of `s` is whitespace: what `strip()` guarantees. */
  predicate IsStripped(s: string) {
    s == [] || (!IsSpace(s[0]) && !IsSpace(s[|s| - 1]))
  }

  /** `s.lstrip()`: a suffix of `s` that does not start with whitespace
      (`TrimStartSpec`: the part cut off is all whitespace). */
  function TrimStart(s: string): (r: string)
    ensures |r| <= |s| && r == s[|s| - |r|..]
    ensures r == [] || !IsSpace(r[0])
  {
    if s != [] && IsSpace(s[0]) then TrimStart(s[1..]) else s
  }

  /** `s.rstrip()`: a prefix of `s` that does not end with whitespace
      (`TrimEndSpec`: the part cut off is all whitespace). */
  function TrimEnd(s: string): (r: string)
    ensures |r| <= |s| && r == s[..|r|]
    ensures r == [] || !IsSpace(r[|r| - 1])
  {
    if s != [] && IsSpace(s[|s| - 1]) then TrimEnd(s[..|s| - 1]) else s
  }

  lemma {:induction false} TrimStartSpec(s: string)
    ensures AllSpace(s[..|s| - |TrimStart(s)|])
  {
    if s != [] && IsSpace(s[0]) {
      var t := s[1..];
      TrimStartSpec(t);
      var cut := s[..|s| - |TrimStart(s)|];
      var cut' := t[..|t| - |TrimStart(t)|];
      assert cut == [s[0]] + cut';
    }
  }

  lemma {:induction false} TrimEndSpec(s: string)
    ensures AllSpace(s[|TrimEnd(s)|..])
  {
    if s != [] && IsSpace(s[|s| - 1]) {
      var t := s[..|s| - 1];
      TrimEndSpec(t);
      var cut := s[|TrimEnd(s)|..];
      var cut' := t[|TrimEnd(t)|..];
      assert cut == cut' + [s[|s| - 1]];
    }
  }

  /** `s.strip()`: `s` with the whitespace at both ends removed. */
  function Strip(s: string): (r: string)
    ensures IsStripped(r) && |r| <= |s|
  {
    var e := TrimEnd(s);
    var r := TrimStart(e);
    assert r != [] ==> r[|r| - 1] == e[|e| - 1];
    r
  }

  /** `strip()` keeps a slice of `s`, the one at `i`. */
  lemma StripOffset(s: string) returns (i: nat)
    ensures i + |Strip(s)| <= |s| && Strip(s) == s[i..i + |Strip(s)|]
  {
    var e := TrimEnd(s);
    i := |e| - |TrimStart(e)|;
  }

  /** `strip()` removes whitespace only, and only at the ends: the result is the
      slice of `s` at `i`, with whitespace alone on either side of it. */
  lemma StripSlice(s: string) returns (i: nat)
    ensures i + |Strip(s)| <= |s| && Strip(s) == s[i..i + |Strip(s)|]
    ensures AllSpace(s[..i]) && AllSpace(s[i + |Strip(s)|..])
  {
    var e := TrimEnd(s);
    var r := TrimStart(e);
    TrimEndSpec(s);
    TrimStartSpec(e);
    i := |e| - |r|;
    assert e[..i] == s[..i];
    assert r == s[i..|e|];
  }

  /** A string without whitespace at either end is its own `strip()`. */
  lemma StripStripped(s: string)
    requires IsStripped(s)
    ensures Strip(s) == s
  {
    if s != [] {
      assert TrimEnd(s) == s;
      assert TrimStart(s) == s;
    }
  }

  /** Trailing whitespace makes no difference to `strip()`. */
  lemma {:induction false} StripTrailingSpace(s: string, w: string)
    requires AllSpace(w)
    ensures Strip(s + w) == Strip(s)
  {
    TrimEndTrailingSpace(s, w);
  }

  lemma {:induction false} TrimEndTrailingSpace(s: string, w: string)
    requires AllSpace(w)
    ensures TrimEnd(s + w) == TrimEnd(s)
    decreases |w|
  {
    if w != [] {
      var w' := w[..|w| - 1];
      assert (s + w)[..|s + w| - 1] == s + w';
      TrimEndTrailingSpace(s, w');
    } else {
      assert s + w == s;
    }
  }

  /** `pat` occurs in `s` at index `i`. */
  predicate OccursAt(s: string, pat: string, i: int) {
    0 <= i && i + |pat| <= |s| && s[i..i + |pat|] == pat
  }

  /** `s.find(pat)` from index `k` on, as an option (`IndexFromFirst`: no
      earlier occurrence at or after `k`). */
  function IndexFrom(s: string, pat: string, k: nat): (r: Option<nat>)
    requires k <= |s|
    ensures r.Some? ==> k <= r.value && OccursAt(s, pat, r.value)
    decreases |s| - k
  {
    if OccursAt(s, pat, k) then Some(k)
    else if k == |s| then None
    else IndexFrom(s, pat, k + 1)
  }

  lemma {:induction false} IndexFromFirst(s: string, pat: string, k: nat)
    requires k <= |s|
    ensures forall j :: k <= j && (IndexFrom(s, pat, k).Some? ==> j < IndexFrom(s, pat, k).value) ==> !OccursAt(s, pat, j)
    decreases |s| - k
  {
    if !OccursAt(s, pat, k) && k < |s| {
      IndexFromFirst(s, pat, k + 1);
    }
  }

  /** `s.find(pat)`: the first occurrence of `pat` in `s`, if any. */
  function IndexOf(s: string, pat: string): (r: Option<nat>)
    ensures r.Some? ==> OccursAt(s, pat, r.value)
  {
    IndexFrom(s, pat, 0)
  }

  /** No occurrence of `pat` comes before the one `IndexOf` finds; none at all when
      it finds none. */
  lemma IndexOfFirst(s: string, pat: string)
    ensures forall j :: 0 <= j && (IndexOf(s, pat).Some? ==> j < IndexOf(s, pat).value) ==> !OccursAt(s, pat, j)
  {
    IndexFromFirst(s, pat, 0);
  }

  /** Python's `pat in s`. */
  predicate Contains(s: string, pat: string) {
    IndexOf(s, pat).Some?
  }

  /** An occurrence anywhere makes `pat in s` true. */
  lemma OccursContains(s: string, pat: string, i: nat)
    requires OccursAt(s, pat, i)
    ensures Contains(s, pat)
  {
    IndexOfFirst(s, pat);
  }

  /** For a one-character pattern, `pat in s` is membership of that character. */
  lemma ContainsChar(s: string, c: char)
    ensures Contains(s, [c]) <==> c in s
  {
    if c in s {
      var i :| 0 <= i < |s| && s[i] == c;
      assert s[i..i + 1] == [c];
      OccursContains(s, [c], i);
    }
    if Contains(s, [c]) {
      var i := IndexOf(s, [c]).value;
      assert s[i..i + 1][0] == s[i];
    }
  }

  /** `s.partition(c)` for a one-character separator cuts at the first `c`: if
      `s` is `a`, `c`, `b` with no `c` in `a`, the parts are `a` and `b`. */
  lemma PartitionAtChar(s: string, c: char, a: string, b: string)
    requires s == a + [c] + b && c !in a
    ensures Partition(s, [c]).0 == a && Partition(s, [c]).1 == [c] && Partition(s, [c]).2 == b
  {
    assert s[|a|..|a| + 1] == [c];
    OccursContains(s, [c], |a|);
    var i := IndexOf(s, [c]).value;
    IndexOfFirst(s, [c]);
    assert i <= |a|;
    assert s[i..i + 1][0] == s[i];
    assert forall j :: 0 <= j < |a| ==> s[j] == a[j];
    assert s[..i] == a;
  }

  /** `s.startswith(p)`. */
  predicate StartsWith(s: string, p: string) {
    |p| <= |s| && s[..|p|] == p
  }

  /** `s.endswith(p)`. */
  predicate EndsWith(s: string, p: string) {
    |p| <= |s| && s[|s| - |p|..] == p
  }

  lemma StartsWithConcat(a: string, b: string)
    ensures StartsWith(a + b, a)
  {
    assert (a + b)[..|a|] == a;
  }

  lemma EndsWithConcat(a: string, b: string)
    ensures EndsWith(a + b, b)
  {
    assert (a + b)[|a|..] == b;
  }

  /** An ending of an ending is an ending. */
  lemma EndsWithTrans(a: string, b: string, c: string)
    requires EndsWith(a, b) && EndsWith(b, c)
    ensures EndsWith(a, c)
  {
    assert a[|a| - |c|..] == a[|a| - |b|..][|b| - |c|..];
  }

  /** A slice inside the first part of a concatenation. */
  lemma SliceOfFront(a: string, b: string, i: nat, n: nat)
    requires i + n <= |a|
    ensures (a + b)[i..i + n] == a[i..i + n]
  {
  }

  /** A slice inside the second part of a concatenation. */
  lemma SliceOfBack(a: string, b: string, i: nat, n: nat)
    requires i + n <= |b|
    ensures (a + b)[|a| + i..|a| + i + n] == b[i..i + n]
  {
  }

  /** An occurrence in the middle part of `a + b + c` is one in the whole. */
  lemma OccursInMiddle(a: string, b: string, c: string, pat: string, i: nat)
    requires OccursAt(b, pat, i)
    ensures OccursAt(a + b + c, pat, |a| + i)
  {
    SliceOfFront(b, c, i, |pat|);
    assert a + b + c == a + (b + c);
    SliceOfBack(a, b + c, i, |pat|);
  }

  /** An occurrence of `pat` in a piece `t` of `s` is an occurrence in `s`. */
  lemma OccurrenceInPiece(s: string, pat: string, t: string, i: nat)
    requires i + |t| <= |s| && t == s[i..i + |t|]
    ensures Contains(t, pat) ==> Contains(s, pat)
  {
    if Contains(t, pat) {
      var k := IndexOf(t, pat).value;
      assert s[i + k..i + k + |pat|] == t[k..k + |pat|] by {
        forall m | i + k <= m < i + k + |pat| ensures s[m] == t[m - i] {
          assert t[m - i] == s[i..i + |t|][m - i];
        }
      }
      assert OccursAt(s, pat, i + k);
      IndexOfFirst(s, pat);
    }
  }

  /** `strip()` never creates an occurrence of `pat`. */
  lemma OccurrenceAfterStrip(s: string, pat: string)
    ensures Contains(Strip(s), pat) ==> Contains(s, pat)
  {
    var i := StripOffset(s);
    OccurrenceInPiece(s, pat, Strip(s), i);
  }

  /** `s.partition(sep)`: the text before the first `sep`, `sep` itself, and the text after;
      `(s, "", "")` when `sep` does not occur. Python refuses an empty separator. */
  function Partition(s: string, sep: string): (r: (string, string, string))
    requires sep != []
    ensures Contains(s, sep) ==> r.0 + r.1 + r.2 == s && r.1 == sep && !Contains(r.0, sep)
    ensures !Contains(s, sep) ==> r == (s, "", "")
  {
    match IndexOf(s, sep)
    case None => (s, "", "")
    case Some(i) =>
      var before := s[..i];
      assert !Contains(before, sep) by {
        forall k | OccursAt(before, sep, k) ensures OccursAt(s, sep, k) {
          assert before[k..k + |sep|] == s[k..k + |sep|];
        }
        IndexOfFirst(s, sep);
      }
      assert s[i..i + |sep|] == sep;
      assert s == before + s[i..i + |sep|] + s[i + |sep|..];
      (before, sep, s[i + |sep|..])
  }

  /** `sep.join(parts)`. */
  function Join(sep: string, parts: seq<string>): string {
    if |parts| == 0 then ""
    else if |parts| == 1 then parts[0]
    else parts[0] + sep + Join(sep, parts[1..])
  }

  /** The first index of `c` in `s`, if any. */
  function FindChar(s: string, c: char): (r: Option<nat>)
    ensures r.None? <==> c !in s
    ensures r.Some? ==> r.value < |s| && s[r.value] == c && c !in s[..r.value]
  {
    if s == [] then None
    else if s[0] == c then Some(0)
    else match FindChar(s[1..], c)
      case None => None
      case Some(i) =>
        assert s[1..][..i] == s[1..i + 1];
        assert s[..i + 1] == [s[0]] + s[1..i + 1];
        Some(i + 1)
  }

  /** The first `c` is the one `FindChar` finds. */
  lemma FindCharIs(s: string, c: char, i: nat)
    requires i < |s| && s[i] == c && c !in s[..i]
    ensures FindChar(s, c).Some? && FindChar(s, c).value == i
  {
  }

  /** `s.split(c)` for a one-character separator: the pieces between the `c`s. */
  function SplitChar(s: string, c: char): (r: seq<string>)
    ensures |r| >= 1
    decreases |s|
  {
    match FindChar(s, c)
    case None => [s]
    case Some(i) => [s[..i]] + SplitChar(s[i + 1..], c)
  }

  /** Splitting at `c` undoes joining with `c` when no part holds a `c`. */
  lemma {:induction false} SplitJoin(parts: seq<string>, c: char)
    requires |parts| >= 1
    requires forall k :: 0 <= k < |parts| ==> c !in parts[k]
    ensures SplitChar(Join([c], parts), c) == parts
  {
    if |parts| > 1 {
      var rest := parts[1..];
      var s := Join([c], parts);
      var t := Join([c], rest);
      assert s == parts[0] + [c] + t;
      assert s[..|parts[0]|] == parts[0];
      FindCharIs(s, c, |parts[0]|);
      assert s[|parts[0]| + 1..] == t;
      SplitJoin(rest, c);
      assert parts == [parts[0]] + rest;
    }
  }
}

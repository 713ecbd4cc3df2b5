/** `String.prototype.replaceAll` with a string pattern: occurrences are found left to right
    with `indexOf`, the search resuming just after each match, so matches never overlap; each
    is replaced by the replacement string with its `$` patterns expanded. */
module Replace {
  import opened Base

  /** `pat` occurs in `s` starting at index `i`. */
  predicate OccursAt(s: string, pat: string, i: nat) {
    i + |pat| <= |s| && s[i..i + |pat|] == pat
  }

  /** `pat` occurs nowhere in `s`. */
  ghost predicate Absent(s: string, pat: string) {
    forall i: nat :: !OccursAt(s, pat, i)
  }

  /** `String.prototype.indexOf(pat, from)`: the first occurrence at or after `from`. */
  function IndexOf(s: string, pat: string, from: nat): (r: Option<nat>)
    requires from <= |s|
    ensures r.Some? ==> from <= r.value && OccursAt(s, pat, r.value)
    ensures r.Some? ==> forall q: nat :: from <= q < r.value ==> !OccursAt(s, pat, q)
    ensures r.None? ==> forall q: nat :: from <= q ==> !OccursAt(s, pat, q)
    decreases |s| - from
  {
    if from + |pat| > |s| then None
    else if s[from..from + |pat|] == pat then Some(from)
    else IndexOf(s, pat, from + 1)
  }

  /** ECMAScript's GetSubstitution for a string pattern (no capture groups): in the
      replacement, `$$` stands for `$`, `$&` for the matched text, `` $` `` for the text before
      the match and `$'` for the text after it; any other `$` is copied as it is. */
  function Substitution(matched: string, str: string, position: nat, replacement: string): string
    requires position + |matched| <= |str|
    decreases |replacement|
  {
    if |replacement| == 0 then ""
    else if replacement[0] == '$' && |replacement| >= 2 && replacement[1] == '$' then
      "$" + Substitution(matched, str, position, replacement[2..])
    else if replacement[0] == '$' && |replacement| >= 2 && replacement[1] == '&' then
      matched + Substitution(matched, str, position, replacement[2..])
    else if replacement[0] == '$' && |replacement| >= 2 && replacement[1] == '`' then
      str[..position] + Substitution(matched, str, position, replacement[2..])
    else if replacement[0] == '$' && |replacement| >= 2 && replacement[1] == '\'' then
      str[position + |matched|..] + Substitution(matched, str, position, replacement[2..])
    else [replacement[0]] + Substitution(matched, str, position, replacement[1..])
  }

  /** A replacement without `$` is inserted literally. */
  lemma {:induction false} SubstitutionLiteral(matched: string, str: string, position: nat, replacement: string)
    requires position + |matched| <= |str|
    requires '$' !in replacement
    ensures Substitution(matched, str, position, replacement) == replacement
    decreases |replacement|
  {
    if |replacement| > 0 {
      assert replacement[0] != '$';
      assert forall i :: 0 <= i < |replacement[1..]| ==> replacement[1..][i] == replacement[i + 1];
      SubstitutionLiteral(matched, str, position, replacement[1..]);
      assert replacement == [replacement[0]] + replacement[1..];
    }
  }

  /** The part of `replaceAll` from position `from` on: copy up to the next match, emit
      the expanded replacement, resume after the match. */
  function ReplaceFrom(s: string, pat: string, v: string, from: nat): string
    requires |pat| > 0 && from <= |s|
    decreases |s| - from
  {
    match IndexOf(s, pat, from)
    case None => s[from..]
    case Some(p) => s[from..p] + Substitution(pat, s, p, v) + ReplaceFrom(s, pat, v, p + |pat|)
  }

  /** `s.replaceAll(pat, v)` for a non-empty pattern string. */
  function ReplaceAll(s: string, pat: string, v: string): (r: string)
    requires |pat| > 0
    ensures Absent(s, pat) ==> r == s
  {
    ReplaceFrom(s, pat, v, 0)
  }

  /** Reference reading of "replace every occurrence literally, left to right, without
      overlap":
      at each position either the pattern starts here and is replaced, or one character
      is copied. */
  function ScanReplace(s: string, pat: string, v: string): string
    requires |pat| > 0
    decreases |s|
  {
    if |s| < |pat| then s
    else if s[..|pat|] == pat then v + ScanReplace(s[|pat|..], pat, v)
    else [s[0]] + ScanReplace(s[1..], pat, v)
  }

  /** Copying up to the first occurrence: with no occurrence in [from, p), the scan of
      `s[from..]` is `s[from..p]` followed by the scan of `s[p..]`. */
  lemma {:induction false} ScanSkips(s: string, pat: string, v: string, from: nat, p: nat)
    requires |pat| > 0 && from <= p <= |s|
    requires forall q: nat :: from <= q < p ==> !OccursAt(s, pat, q)
    ensures ScanReplace(s[from..], pat, v) == s[from..p] + ScanReplace(s[p..], pat, v)
    decreases p - from
  {
    if from < p {
      var w := s[from..];
      assert !OccursAt(s, pat, from);
      if |w| < |pat| {
        assert |s[p..]| < |pat|;
        assert s[from..p] + s[p..] == w;
      } else {
        assert w[..|pat|] == s[from..from + |pat|];
        assert w[1..] == s[from + 1..];
        ScanSkips(s, pat, v, from + 1, p);
        assert s[from..p] == [s[from]] + s[from + 1..p];
      }
    } else {
      assert s[from..p] == [];
    }
  }

  lemma {:induction false} ReplaceFromIsScan(s: string, pat: string, v: string, from: nat)
    requires |pat| > 0 && from <= |s| && '$' !in v
    ensures ReplaceFrom(s, pat, v, from) == ScanReplace(s[from..], pat, v)
    decreases |s| - from
  {
    var i := IndexOf(s, pat, from);
    if i.None? {
      ScanNoMatch(s, pat, v, from);
    } else {
      var p := i.value;
      assert OccursAt(s, pat, p);
      var tail := ReplaceFrom(s, pat, v, p + |pat|);
      ReplaceFromAtMatch(s, pat, v, from);
      assert ReplaceFrom(s, pat, v, from) == s[from..p] + v + tail;
      ReplaceFromIsScan(s, pat, v, p + |pat|);
      assert tail == ScanReplace(s[p + |pat|..], pat, v);
      ScanAtMatch(s, pat, v, from, p);
    }
  }

  /** The scan of `s[from..]` when the pattern does not occur from `from` on. */
  lemma ScanNoMatch(s: string, pat: string, v: string, from: nat)
    requires |pat| > 0 && from <= |s| && IndexOf(s, pat, from).None?
    ensures ReplaceFrom(s, pat, v, from) == s[from..] == ScanReplace(s[from..], pat, v)
  {
    ScanSkips(s, pat, v, from, |s|);
    assert s[|s|..] == [];
    assert ScanReplace(s[|s|..], pat, v) == [];
    assert s[from..|s|] == s[from..];
  }

  /** The scan of `s[from..]` when the first occurrence from `from` on is at `p`. */
  lemma ScanAtMatch(s: string, pat: string, v: string, from: nat, p: nat)
    requires |pat| > 0 && from <= p && '$' !in v && OccursAt(s, pat, p)
    requires forall q: nat :: from <= q < p ==> !OccursAt(s, pat, q)
    ensures ScanReplace(s[from..], pat, v) == s[from..p] + v + ScanReplace(s[p + |pat|..], pat, v)
  {
    ScanSkips(s, pat, v, from, p);
    var w := s[p..];
    assert w[..|pat|] == pat;
    assert w[|pat|..] == s[p + |pat|..];
    assert ScanReplace(w, pat, v) == v + ScanReplace(w[|pat|..], pat, v);
  }

  /** One step of `replaceAll` at a match. */
  lemma ReplaceFromAtMatch(s: string, pat: string, v: string, from: nat)
    requires |pat| > 0 && from <= |s| && '$' !in v && IndexOf(s, pat, from).Some?
    ensures var p := IndexOf(s, pat, from).value;
            ReplaceFrom(s, pat, v, from) == s[from..p] + v + ReplaceFrom(s, pat, v, p + |pat|)
  {
    SubstitutionLiteral(pat, s, IndexOf(s, pat, from).value, v);
  }

  /** With a replacement free of `$`, `replaceAll` is the literal left-to-right,
      non-overlapping replacement of the scan. */
  lemma ReplaceAllIsScan(s: string, pat: string, v: string)
    requires |pat| > 0 && '$' !in v
    ensures ReplaceAll(s, pat, v) == ScanReplace(s, pat, v)
  {
    ReplaceFromIsScan(s, pat, v, 0);
    assert s[0..] == s;
  }

  /** Left to right: when the first occurrence of `pat` in `a + pat + b` is the one after
      `a`, the result is `a`, the replacement, then the replacement applied to `b` alone. */
  lemma {:induction false} ReplaceAllFirstMatch(a: string, pat: string, b: string, v: string)
    requires |pat| > 0 && '$' !in v
    requires forall q: nat :: q < |a| ==> !OccursAt(a + pat + b, pat, q)
    ensures ReplaceAll(a + pat + b, pat, v) == a + v + ReplaceAll(b, pat, v)
  {
    var s := a + pat + b;
    ScanSkips(s, pat, v, 0, |a|);
    assert s[0..] == s && s[0..|a|] == a;
    var w := s[|a|..];
    assert w == pat + b;
    ScanFront(pat, b, v);
    ReplaceAllIsScan(s, pat, v);
    ReplaceAllIsScan(b, pat, v);
  }

  /** The scan of a string that starts with the pattern. */
  lemma ScanFront(pat: string, b: string, v: string)
    requires |pat| > 0
    ensures ScanReplace(pat + b, pat, v) == v + ScanReplace(b, pat, v)
  {
    var w := pat + b;
    assert w[..|pat|] == pat;
    assert w[|pat|..] == b;
  }

  /** With a one-character pattern, the scan works character by character. */
  lemma {:induction false} ScanSingleCons(c: char, rest: string, p: char, v: string)
    ensures ScanReplace([c] + rest, [p], v) == (if c == p then v else [c]) + ScanReplace(rest, [p], v)
  {
    var s := [c] + rest;
    assert s[..1] == [c];
    assert s[1..] == rest;
  }

  /** With a one-character pattern, replacement distributes over concatenation. */
  lemma {:induction false} ScanSingleAppend(a: string, b: string, p: char, v: string)
    ensures ScanReplace(a + b, [p], v) == ScanReplace(a, [p], v) + ScanReplace(b, [p], v)
    decreases |a|
  {
    if |a| == 0 {
      assert a + b == b;
      assert ScanReplace(a, [p], v) == [];
    } else {
      assert a + b == [a[0]] + (a[1..] + b);
      assert a == [a[0]] + a[1..];
      ScanSingleCons(a[0], a[1..] + b, p, v);
      ScanSingleCons(a[0], a[1..], p, v);
      ScanSingleAppend(a[1..], b, p, v);
    }
  }
}

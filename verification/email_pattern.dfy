/** The address pattern used by the handler's validation (formsubmit.server.js line 33):
      [atext]+(\.[atext]+)* @ ([a-z0-9]([a-z0-9-]*[a-z0-9])?\.)+ [a-z0-9]([a-z0-9-]*[a-z0-9])?
    with the `i` flag and no anchors, applied with `String.prototype.match`, so a value is
    accepted when SOME substring of it belongs to the language. */
module EmailPattern {

  /** `[a-z0-9]` under the `i` flag. */
  predicate IsAlnum(c: char) {
    'a' <= c <= 'z' || 'A' <= c <= 'Z' || '0' <= c <= '9'
  }

  /** `[a-z0-9-]` under the `i` flag: the characters inside a domain label. */
  predicate IsLabelChar(c: char) {
    IsAlnum(c) || c == '-'
  }

  /** ``[a-z0-9!#$%&'*+/=?^_`{|}~-]`` under the `i` flag: the characters of the local part. */
  predicate IsAtext(c: char) {
    IsAlnum(c) || c in "!#$%&'*+/=?^_`{|}~-"
  }

  /** `[atext]+(\.[atext]+)*`: atext runs joined by single dots. */
  ghost predicate LocalPart(w: string) {
    && |w| > 0
    && IsAtext(w[0])
    && IsAtext(w[|w| - 1])
    && (forall i :: 0 <= i < |w| ==> IsAtext(w[i]) || w[i] == '.')
    && (forall i :: 0 <= i < |w| - 1 ==> w[i] == '.' ==> w[i + 1] != '.')
  }

  /** `[a-z0-9]([a-z0-9-]*[a-z0-9])?`: a label that neither starts nor ends with a hyphen. */
  ghost predicate Label(w: string) {
    && |w| > 0
    && IsAlnum(w[0])
    && IsAlnum(w[|w| - 1])
    && forall i :: 0 <= i < |w| ==> IsLabelChar(w[i])
  }

  /** `(label\.)+label`: at least two labels joined by dots. */
  ghost predicate Domain(w: string)
    decreases |w|
  {
    exists j :: 0 < j < |w| && w[j] == '.' && Label(w[..j]) && (Label(w[j + 1..]) || Domain(w[j + 1..]))
  }

  /** A whole string of the pattern's language. */
  ghost predicate Address(w: string) {
    exists k :: 0 <= k < |w| && w[k] == '@' && LocalPart(w[..k]) && Domain(w[k + 1..])
  }

  /** What `s.match(isValidMail)` finds: some substring of `s` is an address. */
  ghost predicate Matches(s: string) {
    exists i, j :: 0 <= i <= j <= |s| && Address(s[i..j])
  }

  /** From `q` on, a run of label characters reaches an alphanumeric followed by a dot
      and another alphanumeric. */
  function LabelThenDot(s: string, q: nat): bool
    decreases |s| - q
  {
    if q >= |s| || !IsLabelChar(s[q]) then false
    else if IsAlnum(s[q]) && q + 2 < |s| && s[q + 1] == '.' && IsAlnum(s[q + 2]) then true
    else LabelThenDot(s, q + 1)
  }

  /** Label characters over [q, e], an alphanumeric at e, a dot at e + 1 and an
      alphanumeric at e + 2. */
  ghost predicate DotAfterLabel(s: string, q: nat, e: nat)
    requires q <= e && e + 2 < |s|
  {
    && (forall x :: q <= x <= e ==> IsLabelChar(s[x]))
    && IsAlnum(s[e])
    && s[e + 1] == '.'
    && IsAlnum(s[e + 2])
  }

  /** The scan finds exactly the label-dot-alphanumeric shapes starting at `q`. */
  lemma {:induction false} LabelThenDotSpec(s: string, q: nat)
    ensures LabelThenDot(s, q) <==> exists e :: q <= e && e + 2 < |s| && DotAfterLabel(s, q, e)
    decreases |s| - q
  {
    if q >= |s| || !IsLabelChar(s[q]) {
    } else if IsAlnum(s[q]) && q + 2 < |s| && s[q + 1] == '.' && IsAlnum(s[q + 2]) {
      assert DotAfterLabel(s, q, q);
    } else {
      LabelThenDotSpec(s, q + 1);
      if LabelThenDot(s, q + 1) {
        var e :| q + 1 <= e && e + 2 < |s| && DotAfterLabel(s, q + 1, e);
        assert DotAfterLabel(s, q, e);
      }
      if exists e :: q <= e && e + 2 < |s| && DotAfterLabel(s, q, e) {
        var e :| q <= e && e + 2 < |s| && DotAfterLabel(s, q, e);
        assert e != q;
        assert DotAfterLabel(s, q + 1, e);
      }
    }
  }

  /** An `@` at `k` that is the middle of a shortest possible match: one local character
      before it, then a label, a dot and the first character of a further label. */
  predicate MatchAt(s: string, k: nat) {
    && 0 < k < |s| - 1
    && s[k] == '@'
    && IsAtext(s[k - 1])
    && IsAlnum(s[k + 1])
    && LabelThenDot(s, k + 1)
  }

  /** The handler's email check, computed by looking for a shortest match around an `@`. */
  function IsValidMail(s: string): bool {
    exists k: nat | k < |s| :: MatchAt(s, k)
  }

  /** Every match has an `@`, so text without one is rejected. */
  lemma NoAtRejected(s: string)
    requires '@' !in s
    ensures !IsValidMail(s) && !Matches(s)
  {
    forall k: nat | k < |s|
      ensures !MatchAt(s, k)
    {
      assert s[k] in s;
    }
    IsValidMailMatches(s);
  }

  /** A domain starts with an alphanumeric and contains a first label, dot, alphanumeric. */
  lemma DomainStart(d: string) returns (j: nat)
    requires Domain(d)
    ensures 0 < j && j + 1 < |d| && d[j] == '.' && Label(d[..j]) && IsAlnum(d[j + 1])
  {
    j :| 0 < j < |d| && d[j] == '.' && Label(d[..j]) && (Label(d[j + 1..]) || Domain(d[j + 1..]));
    var rest := d[j + 1..];
    if !Label(rest) {
      var j2 := DomainStart(rest);
      assert rest[..j2][0] == rest[0];
    }
    assert rest[0] == d[j + 1];
  }

  /** A run of label characters from an alphanumeric to an alphanumeric is a label. */
  lemma LabelFromRun(s: string, q: nat, e: nat)
    requires q <= e && e + 2 < |s| && DotAfterLabel(s, q, e) && IsAlnum(s[q])
    ensures Label(s[q..e + 1])
  {
    var lbl := s[q..e + 1];
    assert forall i :: 0 <= i < |lbl| ==> lbl[i] == s[q + i];
  }

  /** A label, a dot and one alphanumeric form a domain. */
  lemma DomainOfTwo(d: string, j: nat)
    requires j + 2 == |d| && Label(d[..j]) && d[j] == '.' && IsAlnum(d[j + 1])
    ensures Domain(d)
  {
    assert d[j + 1..] == [d[j + 1]];
    assert Label(d[j + 1..]);
  }

  /** One local character, an `@` and a domain form an address. */
  lemma AddressOfParts(w: string)
    requires |w| > 2 && IsAtext(w[0]) && w[1] == '@' && Domain(w[2..])
    ensures Address(w)
  {
    assert w[..1] == [w[0]];
    assert LocalPart(w[..1]);
  }

  /** Every match found by the scanner is a match of the pattern. */
  lemma ScannerSound(s: string, k: nat)
    requires k < |s| && MatchAt(s, k)
    ensures Matches(s)
  {
    LabelThenDotSpec(s, k + 1);
    var e :| k + 1 <= e && e + 2 < |s| && DotAfterLabel(s, k + 1, e);
    ShortestMatch(s, k, e);
  }

  /** The text from the character before the `@` to the alphanumeric after the dot. */
  lemma ShortestMatch(s: string, k: nat, e: nat)
    requires 0 < k && k + 1 <= e && e + 2 < |s| && s[k] == '@' && IsAtext(s[k - 1]) && IsAlnum(s[k + 1])
    requires DotAfterLabel(s, k + 1, e)
    ensures Address(s[k - 1..e + 3])
  {
    var w := s[k - 1..e + 3];
    var d := w[2..];
    assert d == s[k + 1..e + 3];
    var j: nat := e - k;
    assert d[..j] == s[k + 1..e + 1];
    LabelFromRun(s, k + 1, e);
    assert d[j] == s[e + 1] && d[j + 1] == s[e + 2];
    DomainOfTwo(d, j);
    assert w[0] == s[k - 1] && w[1] == s[k];
    AddressOfParts(w);
  }

  /** A label found inside `s` at [q, e] with a dot and an alphanumeric after it. */
  lemma LabelInside(s: string, q: nat, lbl: string, after: string)
    requires Label(lbl) && q + |lbl| + 1 < |s|
    requires s[q..q + |lbl| + 2] == lbl + after && |after| == 2
    requires after[0] == '.' && IsAlnum(after[1])
    ensures DotAfterLabel(s, q, q + |lbl| - 1)
  {
    var e := q + |lbl| - 1;
    forall x | q <= x <= e
      ensures IsLabelChar(s[x])
    {
      assert s[x] == s[q..q + |lbl| + 2][x - q];
    }
    assert s[e] == s[q..q + |lbl| + 2][e - q];
    assert s[e + 1] == s[q..q + |lbl| + 2][e + 1 - q];
    assert s[e + 2] == s[q..q + |lbl| + 2][e + 2 - q];
  }

  /** An address has a scanner match at its `@`. */
  lemma AddressHasMatch(w: string) returns (a: nat)
    requires Address(w)
    ensures a < |w| && MatchAt(w, a)
  {
    a :| 0 <= a < |w| && w[a] == '@' && LocalPart(w[..a]) && Domain(w[a + 1..]);
    var local := w[..a];
    assert IsAtext(local[|local| - 1]);
    assert w[a - 1] == local[a - 1];
    DomainMatch(w, a + 1);
    LabelThenDotSpec(w, a + 1);
  }

  /** A domain starting at `q` gives the scanner its label, dot and alphanumeric. */
  lemma DomainMatch(w: string, q: nat)
    requires q <= |w| && Domain(w[q..])
    ensures q < |w| && IsAlnum(w[q]) && exists e :: q <= e && e + 2 < |w| && DotAfterLabel(w, q, e)
  {
    var d := w[q..];
    var dj := DomainStart(d);
    var lbl := d[..dj];
    assert w[q..q + dj + 2] == d[..dj + 2];
    assert d[..dj + 2] == lbl + [d[dj], d[dj + 1]];
    LabelInside(w, q, lbl, [d[dj], d[dj + 1]]);
    assert w[q] == lbl[0];
  }

  /** A scanner match inside a substring is a scanner match of the whole string. */
  lemma MatchAtWithin(s: string, i: nat, j: nat, a: nat)
    requires i <= j <= |s| && a < j - i && MatchAt(s[i..j], a)
    ensures i + a < |s| && MatchAt(s, i + a)
  {
    var w := s[i..j];
    LabelThenDotSpec(w, a + 1);
    var e :| a + 1 <= e && e + 2 < |w| && DotAfterLabel(w, a + 1, e);
    assert forall x :: 0 <= x < |w| ==> w[x] == s[i + x];
    assert DotAfterLabel(s, i + a + 1, i + e);
    LabelThenDotSpec(s, i + a + 1);
  }

  /** Every match of the pattern contains a match the scanner finds. */
  lemma ScannerComplete(s: string) returns (k: nat)
    requires Matches(s)
    ensures k < |s| && MatchAt(s, k)
  {
    var i, j :| 0 <= i <= j <= |s| && Address(s[i..j]);
    var a := AddressHasMatch(s[i..j]);
    MatchAtWithin(s, i, j, a);
    k := i + a;
  }

  /** The scanner decides exactly the pattern's unanchored match. */
  lemma IsValidMailMatches(s: string)
    ensures IsValidMail(s) <==> Matches(s)
  {
    if IsValidMail(s) {
      var k: nat :| k < |s| && MatchAt(s, k);
      ScannerSound(s, k);
    }
    if Matches(s) {
      var k := ScannerComplete(s);
    }
  }

  /** Addresses the handler accepts, including upper case and plus-tagged local parts. */
  lemma AcceptedExamples()
    ensures IsValidMail("a@b.co")
    ensures IsValidMail("a.b+tag@sub.example.co")
    ensures IsValidMail("A@B.CO")
  {
    assert MatchAt("a@b.co", 1);
    assert MatchAt("a.b+tag@sub.example.co", 7) by {
      var s := "a.b+tag@sub.example.co";
      assert LabelThenDot(s, 10);
      assert LabelThenDot(s, 9);
    }
    assert MatchAt("A@B.CO", 1);
  }

  /** Values the handler rejects: no `@`, and no dot after the `@`. */
  lemma RejectedExamples()
    ensures !IsValidMail("not-an-email")
    ensures !IsValidMail("a@b")
  {
    var s := "not-an-email";
    assert '@' !in s;
    var t := "a@b";
    assert !LabelThenDot(t, 2);
  }

  /** The search is unanchored: text around an address does not stop the match. */
  lemma UnanchoredExample()
    ensures IsValidMail("mail me: x@y.z!")
  {
    assert MatchAt("mail me: x@y.z!", 10);
  }
}

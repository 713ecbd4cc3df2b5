/** Filling the mail template: five `replaceAll` calls, one per placeholder, each applied
    to the result of the previous one. */
module Render {
  import opened Base
  import opened Replace
  import Payload

  const FirstName: string := "%FIRSTNAME%"
  const LastName: string := "%LASTNAME%"
  const Phone: string := "%PHONE%"
  const Email: string := "%EMAIL%"
  const Message: string := "%MESSAGE%"

  /** The template with each placeholder replaced by its (already escaped) value. */
  function FillTemplate(template: string, f: Payload.Fields): string {
    var s1 := ReplaceAll(template, FirstName, f.firstname);
    var s2 := ReplaceAll(s1, LastName, f.lastname);
    var s3 := ReplaceAll(s2, Phone, f.phone);
    var s4 := ReplaceAll(s3, Email, f.email);
    ReplaceAll(s4, Message, f.message)
  }

  /** Every placeholder begins with a percent sign, so text without one holds none. */
  lemma AbsentWithoutPercent(s: string, pat: string)
    requires |pat| > 0 && pat[0] == '%' && '%' !in s
    ensures Absent(s, pat)
  {
    forall i: nat
      ensures !OccursAt(s, pat, i)
    {
      if i + |pat| <= |s| {
        assert s[i..i + |pat|][0] == s[i];
      }
    }
  }

  /** A template without placeholders is sent as it is. */
  lemma NoPlaceholdersUnchanged(template: string, f: Payload.Fields)
    requires Absent(template, FirstName) && Absent(template, LastName) && Absent(template, Phone)
    requires Absent(template, Email) && Absent(template, Message)
    ensures FillTemplate(template, f) == template
  {
  }

  /** A placeholder the template lacks has no effect: its value appears nowhere. */
  lemma AbsentPlaceholderIgnored(template: string, f: Payload.Fields, other: string)
    requires Absent(template, FirstName)
    ensures FillTemplate(template, f) == FillTemplate(template, f.(firstname := other))
  {
  }

  /** The value lands where the placeholder was: in a template whose surrounding text has
      no percent sign, filled with values that have none either and a first name without
      `$`, the first-name placeholder is replaced by the first name and nothing else changes. */
  lemma {:induction false} FillsPlaceholder(a: string, b: string, f: Payload.Fields)
    requires '%' !in a && '%' !in b && '%' !in f.firstname && '$' !in f.firstname
    ensures FillTemplate(a + FirstName + b, f) == a + f.firstname + b
  {
    var s := a + FirstName + b;
    forall q: nat | q < |a|
      ensures !OccursAt(s, FirstName, q)
    {
      if q + |FirstName| <= |s| {
        assert s[q..q + |FirstName|][0] == s[q] == a[q];
      }
    }
    ReplaceAllFirstMatch(a, FirstName, b, f.firstname);
    AbsentWithoutPercent(b, FirstName);
    var filled := a + f.firstname + b;
    assert '%' !in filled;
    AbsentWithoutPercent(filled, LastName);
    AbsentWithoutPercent(filled, Phone);
    AbsentWithoutPercent(filled, Email);
    AbsentWithoutPercent(filled, Message);
  }

  /** `%name%`: how the template marks where a field goes. */
  function Placeholder(name: string): string {
    "%" + name + "%"
  }

  /** The placeholder names, in the order the fields are filled. */
  const Names: seq<string> := ["FIRSTNAME", "LASTNAME", "PHONE", "EMAIL", "MESSAGE"]

  /** The placeholder of each name. */
  function Marks(names: seq<string>): seq<string> {
    seq(|names|, i requires 0 <= i < |names| => Placeholder(names[i]))
  }

  /** The five field values, in the order they are filled. */
  function Values(f: Payload.Fields): seq<string> {
    [f.firstname, f.lastname, f.phone, f.email, f.message]
  }

  /** Text pieces with fills between them: `gaps[0] + fills[0] + gaps[1] + ... + gaps[n]`. */
  function Interleave(gaps: seq<string>, fills: seq<string>): string
    requires |gaps| == |fills| + 1
    decreases |fills|
  {
    if |fills| == 0 then gaps[0] else gaps[0] + fills[0] + Interleave(gaps[1..], fills[1..])
  }

  /** `y` starts with `name%`, so a `%` just before `y` opens the placeholder of `name`. */
  predicate ClosesAt(y: string, name: string) {
    |name| < |y| && y[..|name|] == name && y[|name|] == '%'
  }

  /** Pieces without a percent sign interleave to text without one. */
  lemma {:induction false} InterleaveNoPercent(gaps: seq<string>, fills: seq<string>)
    requires |gaps| == |fills| + 1
    requires forall i :: 0 <= i < |gaps| ==> '%' !in gaps[i]
    requires forall i :: 0 <= i < |fills| ==> '%' !in fills[i]
    ensures '%' !in Interleave(gaps, fills)
    decreases |fills|
  {
    if |fills| > 0 {
      InterleaveNoPercent(gaps[1..], fills[1..]);
    }
  }

  /** Text without `%` never starts with `name%`. */
  lemma NotClosesRun(z: string, name: string)
    requires '%' !in z
    ensures !ClosesAt(z, name)
  {
    if |name| < |z| {
      assert z[|name|] in z;
    }
  }

  /** A percent-free run other than `name`, followed by `%`, does not start with `name%`. */
  lemma NotClosesGap(z: string, w: string, name: string)
    requires '%' !in z && '%' !in name && z != name
    ensures !ClosesAt(z + "%" + w, name)
  {
    var y := z + "%" + w;
    if |name| < |y| {
      if |z| > |name| {
        assert y[|name|] == z[|name|] && z[|name|] in z;
      } else if |z| < |name| {
        assert y[..|name|][|z|] == '%';
        assert name[|z|] in name;
      } else {
        assert y[..|name|] == z;
      }
    }
  }

  /** An occurrence of `%name%` in `x + "%" + y` with a percent-free `x` can only start at
      the `%` after `x` or inside `y`. */
  lemma AbsentAfterRun(x: string, y: string, name: string)
    requires '%' !in x && !ClosesAt(y, name) && Absent(y, Placeholder(name))
    ensures Absent(x + "%" + y, Placeholder(name))
  {
    var s := x + "%" + y;
    var p := Placeholder(name);
    forall q: nat
      ensures !OccursAt(s, p, q)
    {
      if q < |x| {
        NoneBeforePercent(x, "%" + y, p, q);
        assert x + "%" + y == s;
      } else if q == |x| {
        NoneAtGap(x, y, name);
      } else {
        NoneInTail(x, y, p, q);
      }
    }
  }

  /** No `%`-led pattern starts inside percent-free text. */
  lemma NoneBeforePercent(a: string, b: string, p: string, q: nat)
    requires '%' !in a && |p| > 0 && p[0] == '%' && q < |a|
    ensures !OccursAt(a + b, p, q)
  {
    if q + |p| <= |a + b| {
      assert (a + b)[q..q + |p|][0] == a[q] && a[q] in a;
    }
  }

  /** The `%` after `x` opens `%name%` only if `y` starts with `name%`. */
  lemma NoneAtGap(x: string, y: string, name: string)
    requires !ClosesAt(y, name)
    ensures !OccursAt(x + "%" + y, Placeholder(name), |x|)
  {
    var s := x + "%" + y;
    var p := Placeholder(name);
    var q := |x|;
    if q + |p| <= |s| {
      var u := s[q..q + |p|];
      assert u == "%" + y[..|name| + 1];
      assert u[1..|name| + 1] == y[..|name|];
      assert u[|name| + 1] == y[|name|];
      assert p[1..|name| + 1] == name && p[|name| + 1] == '%';
    }
  }

  /** An occurrence after the `%` is an occurrence in `y`. */
  lemma NoneInTail(x: string, y: string, p: string, q: nat)
    requires |x| < q && Absent(y, p)
    ensures !OccursAt(x + "%" + y, p, q)
  {
    var s := x + "%" + y;
    var r: nat := q - |x| - 1;
    if q + |p| <= |s| {
      assert s[q..q + |p|] == y[r..r + |p|];
    }
    assert !OccursAt(y, p, r);
  }

  /** Text laid out as percent-free gaps around placeholders holds no `%name%` when `name`
      is none of the placeholders' names and no gap between two placeholders spells it. */
  lemma {:induction false} AbsentInLayout(gaps: seq<string>, names: seq<string>, name: string)
    requires |gaps| == |names| + 1
    requires forall i :: 0 <= i < |gaps| ==> '%' !in gaps[i]
    requires forall i :: 0 <= i < |names| ==> '%' !in names[i] && names[i] != name
    requires forall i :: 1 <= i < |names| ==> gaps[i] != name
    requires '%' !in name
    ensures Absent(Interleave(gaps, Marks(names)), Placeholder(name))
    decreases |names|
  {
    if |names| == 0 {
      AbsentWithoutPercent(gaps[0], Placeholder(name));
    } else {
      assert Marks(names)[1..] == Marks(names[1..]);
      var rest := Interleave(gaps[1..], Marks(names[1..]));
      AbsentInLayout(gaps[1..], names[1..], name);
      if |names| > 1 {
        var w := names[1] + "%" + Interleave(gaps[2..], Marks(names[2..]));
        assert gaps[1..][1..] == gaps[2..] && names[1..][1..] == names[2..];
        assert Marks(names[1..])[1..] == Marks(names[2..]);
        assert rest == gaps[1] + "%" + w;
        NotClosesGap(gaps[1], w, name);
      } else {
        assert rest == gaps[1];
        NotClosesRun(gaps[1], name);
      }
      AbsentAfterRun(names[0], rest, name);
      NotClosesGap(names[0], rest, name);
      AbsentAfterRun(gaps[0], names[0] + "%" + rest, name);
      assert Interleave(gaps, Marks(names)) == gaps[0] + "%" + (names[0] + "%" + rest);
    }
  }

  /** One `replaceAll` of the sequence: with the fields before it already filled with
      percent-free values, the placeholder `names[0]` is replaced by `v` at its one place and
      the rest of the layout is untouched. */
  lemma FillStep(gaps: seq<string>, done: seq<string>, names: seq<string>, v: string)
    requires |gaps| == |done| + |names| + 1 && |names| > 0
    requires forall i :: 0 <= i < |gaps| ==> '%' !in gaps[i]
    requires forall i :: 0 <= i < |done| ==> '%' !in done[i]
    requires forall i :: 0 <= i < |names| ==> '%' !in names[i]
    requires forall i :: 1 <= i < |names| ==> names[i] != names[0]
    requires forall i :: |done| + 1 < i < |gaps| - 1 ==> gaps[i] != names[0]
    requires '$' !in v
    ensures ReplaceAll(Interleave(gaps, done + Marks(names)), Placeholder(names[0]), v)
            == Interleave(gaps, done + [v] + Marks(names[1..]))
  {
    var k := |done|;
    var p := Placeholder(names[0]);
    var later := Marks(names[1..]);
    var a := Interleave(gaps[..k + 1], done);
    var b := Interleave(gaps[k + 1..], later);
    MarksCons(names);
    assert done + Marks(names) == done + [p] + later;
    assert gaps == gaps[..k + 1] + gaps[k + 1..];
    SplitAtFill(gaps[..k + 1], done, p, later, gaps[k + 1..]);
    SplitAtFill(gaps[..k + 1], done, v, later, gaps[k + 1..]);
    InterleaveNoPercent(gaps[..k + 1], done);
    AbsentInLayout(gaps[k + 1..], names[1..], names[0]);
    ReplaceAfterPercentFree(a, p, b, v);
  }

  /** The first placeholder after percent-free text, with no further occurrence, is the one
      place `replaceAll` fills. */
  lemma ReplaceAfterPercentFree(a: string, p: string, b: string, v: string)
    requires '%' !in a && |p| > 0 && p[0] == '%' && Absent(b, p) && '$' !in v
    ensures ReplaceAll(a + p + b, p, v) == a + v + b
  {
    forall q: nat | q < |a|
      ensures !OccursAt(a + p + b, p, q)
    {
      NoneBeforePercent(a, p + b, p, q);
      assert a + (p + b) == a + p + b;
    }
    ReplaceAllFirstMatch(a, p, b, v);
  }

  /** The placeholders of a list of names: the first, then the rest. */
  lemma MarksCons(names: seq<string>)
    requires |names| > 0
    ensures Marks(names) == [Placeholder(names[0])] + Marks(names[1..])
  {
  }

  /** An interleaving split at a fill `w`: the gaps before it interleave with the fills
      before it, and the gaps after it with the fills after it. */
  lemma {:induction false} SplitAtFill(g1: seq<string>, done: seq<string>, w: string,
                                       later: seq<string>, g2: seq<string>)
    requires |g1| == |done| + 1 && |g2| == |later| + 1
    ensures Interleave(g1 + g2, done + [w] + later) == Interleave(g1, done) + w + Interleave(g2, later)
    decreases |done|
  {
    var gaps := g1 + g2;
    var fills := done + [w] + later;
    assert gaps[0] == g1[0] && fills[|done|] == w;
    if |done| == 0 {
      assert fills[1..] == later;
      assert gaps[1..] == g2;
    } else {
      SplitAtFill(g1[1..], done[1..], w, later, g2);
      assert fills[1..] == done[1..] + [w] + later;
      assert gaps[1..] == g1[1..] + g2;
      var x := Interleave(g1[1..], done[1..]);
      var y := Interleave(g2, later);
      assert gaps[0] + fills[0] + (x + w + y) == gaps[0] + fills[0] + x + w + y;
    }
  }

  /** The five names are distinct and hold no percent sign. */
  lemma NamesWellFormed()
    ensures forall i, j :: 0 <= i < j < |Names| ==> Names[i] != Names[j]
    ensures forall i :: 0 <= i < |Names| ==> '%' !in Names[i]
  {
  }

  /** Step `k` of the sequence: the template with the first `k` fields filled becomes the
      template with the first `k + 1` filled. */
  lemma FillStepAt(gaps: seq<string>, vs: seq<string>, k: nat)
    requires |gaps| == 6 && |vs| == 5 && k < 5
    requires forall i :: 0 <= i < 6 ==> '%' !in gaps[i]
    requires forall i :: 1 <= i < 5 ==> gaps[i] !in Names
    requires forall i :: 0 <= i < 5 ==> '%' !in vs[i] && '$' !in vs[i]
    ensures ReplaceAll(Interleave(gaps, vs[..k] + Marks(Names[k..])), Placeholder(Names[k]), vs[k])
            == Interleave(gaps, vs[..k + 1] + Marks(Names[k + 1..]))
  {
    NamesWellFormed();
    var names := Names[k..];
    assert names[0] == Names[k] && names[1..] == Names[k + 1..];
    assert forall i :: 0 <= i < |names| ==> names[i] == Names[k + i];
    assert Names[k] in Names;
    FillStep(gaps, vs[..k], names, vs[k]);
    assert vs[..k] + [vs[k]] == vs[..k + 1];
  }

  /** The five `replaceAll` calls on a laid-out template, in terms of the layout. */
  lemma FillSequence(gaps: seq<string>, vs: seq<string>)
    requires |gaps| == 6 && |vs| == 5
    requires forall i :: 0 <= i < 6 ==> '%' !in gaps[i]
    requires forall i :: 1 <= i < 5 ==> gaps[i] !in Names
    requires forall i :: 0 <= i < 5 ==> '%' !in vs[i] && '$' !in vs[i]
    ensures var s1 := ReplaceAll(Interleave(gaps, Marks(Names)), Placeholder(Names[0]), vs[0]);
            var s2 := ReplaceAll(s1, Placeholder(Names[1]), vs[1]);
            var s3 := ReplaceAll(s2, Placeholder(Names[2]), vs[2]);
            var s4 := ReplaceAll(s3, Placeholder(Names[3]), vs[3]);
            ReplaceAll(s4, Placeholder(Names[4]), vs[4]) == Interleave(gaps, vs)
  {
    assert vs[..0] + Marks(Names[0..]) == Marks(Names);
    FillStepAt(gaps, vs, 0);
    FillStepAt(gaps, vs, 1);
    FillStepAt(gaps, vs, 2);
    FillStepAt(gaps, vs, 3);
    FillStepAt(gaps, vs, 4);
    assert vs[..5] + Marks(Names[5..]) == vs;
  }

  /** Each placeholder lands where it stood. The template is text gaps laid around the five
      placeholders in order, `gaps[0] + %FIRSTNAME% + gaps[1] + ... + %MESSAGE% + gaps[5]`;
      when no gap has a percent sign and no gap between two placeholders spells a placeholder
      name, the five fields, free of `%` and `$`, take the places of their placeholders and
      nothing else changes. */
  lemma FillsEveryPlaceholder(gaps: seq<string>, f: Payload.Fields)
    requires |gaps| == 6
    requires forall i :: 0 <= i < 6 ==> '%' !in gaps[i]
    requires forall i :: 1 <= i < 5 ==> gaps[i] !in Names
    requires forall i :: 0 <= i < 5 ==> '%' !in Values(f)[i] && '$' !in Values(f)[i]
    ensures FillTemplate(Interleave(gaps, [FirstName, LastName, Phone, Email, Message]), f)
            == Interleave(gaps, [f.firstname, f.lastname, f.phone, f.email, f.message])
  {
    var vs := Values(f);
    MarksOfNames();
    PlaceholdersOfNames();
    FillSequence(gaps, vs);
    var t := Interleave(gaps, Marks(Names));
    var s1 := ReplaceAll(t, FirstName, f.firstname);
    var s2 := ReplaceAll(s1, LastName, f.lastname);
    var s3 := ReplaceAll(s2, Phone, f.phone);
    var s4 := ReplaceAll(s3, Email, f.email);
    assert ReplaceAll(s4, Message, f.message) == Interleave(gaps, vs);
  }

  /** The placeholder of each name is the corresponding constant. */
  lemma PlaceholdersOfNames()
    ensures Placeholder(Names[0]) == FirstName && Placeholder(Names[1]) == LastName
    ensures Placeholder(Names[2]) == Phone && Placeholder(Names[3]) == Email
    ensures Placeholder(Names[4]) == Message
  {
  }

  /** The placeholders of the five names are the five constants. */
  lemma MarksOfNames()
    ensures Marks(Names) == [FirstName, LastName, Phone, Email, Message]
  {
    var m := Marks(Names);
    assert m[0] == FirstName && m[1] == LastName && m[2] == Phone;
    assert m[3] == Email && m[4] == Message;
  }

  /** A template that is exactly the pattern: one expanded replacement. */
  lemma ReplaceWhole(pat: string, v: string)
    requires |pat| > 0
    ensures ReplaceAll(pat, pat, v) == Substitution(pat, pat, 0, v)
  {
    assert pat[0..0 + |pat|] == pat;
    assert IndexOf(pat, pat, 0) == Some(0);
    assert IndexOf(pat, pat, |pat|).None?;
    assert pat[0..0] == [] && pat[|pat|..] == [];
    assert ReplaceFrom(pat, pat, v, |pat|) == [];
    assert ReplaceFrom(pat, pat, v, 0) == [] + Substitution(pat, pat, 0, v) + [];
  }

  lemma AbsentShort(s: string, pat: string)
    requires |s| < |pat|
    ensures Absent(s, pat)
  {
  }

  /** Placeholders are not filled simultaneously: a value that itself contains a later
      placeholder is filled in turn, so a first name of `%LASTNAME%` is mailed as the
      last name. */
  lemma LaterPlaceholderInValue(f: Payload.Fields)
    requires f.firstname == LastName && f.lastname == "B"
    ensures FillTemplate(FirstName, f) == "B"
  {
    ReplaceWhole(FirstName, f.firstname);
    SubstitutionLiteral(FirstName, FirstName, 0, f.firstname);
    ReplaceWhole(LastName, "B");
    SubstitutionLiteral(LastName, LastName, 0, "B");
    AbsentShort("B", Phone);
    AbsentShort("B", Email);
    AbsentShort("B", Message);
  }

  /** `%MESSAGE%` holds none of the shorter placeholders. */
  lemma MessageHoldsNoOther()
    ensures Absent(Message, Phone) && Absent(Message, Email)
  {
    forall i: nat
      ensures !OccursAt(Message, Phone, i) && !OccursAt(Message, Email, i)
    {
      if i + 7 <= 9 {
        assert Message[i..i + 7][1] == Message[i + 1];
        assert Message[i..i + 7][0] == Message[i];
      }
    }
  }

  /** Values are not inserted literally: `$&` in a value is expanded to the placeholder it
      replaces. A message `$&` (escaped to `$&amp;`) puts `%MESSAGE%amp;` into the mail. */
  lemma DollarPatternExpanded(f: Payload.Fields)
    requires f.message == "$&amp;"
    ensures FillTemplate(Message, f) == Message + "amp;"
  {
    AbsentShort(Message, FirstName);
    AbsentShort(Message, LastName);
    MessageHoldsNoOther();
    ReplaceWhole(Message, f.message);
    var rest := f.message[2..];
    assert rest == "amp;";
    SubstitutionLiteral(Message, Message, 0, rest);
  }
}

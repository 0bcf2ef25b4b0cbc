/** The workspace slug of the onboarding page (app/onboarding/page.tsx):
    generateSlug, the rule that keeps the slug following the company name,
    the normalisation of a typed slug, and the default name of the first
    account. */
module Onboarding {
  import opened Text

  // ---------------------------------------------------------------------
  // generateSlug
  // ---------------------------------------------------------------------

  /** A character of the class `[a-z0-9]`. */
  predicate IsAlnum(c: char) {
    'a' <= c <= 'z' || '0' <= c <= '9'
  }

  /** A character a slug may hold. */
  predicate SlugChar(c: char) {
    IsAlnum(c) || c == '-'
  }

  /** No two hyphens next to each other. */
  predicate NoDoubleHyphen(s: string) {
    forall k :: 0 <= k < |s| - 1 ==> !(s[k] == '-' && s[k + 1] == '-')
  }

  /** A well-formed slug: lower-case letters, digits and single hyphens, and
      no hyphen at either end. */
  predicate IsSlug(s: string) {
    && (forall k :: 0 <= k < |s| ==> SlugChar(s[k]))
    && NoDoubleHyphen(s)
    && (s == [] || (s[0] != '-' && s[|s| - 1] != '-'))
  }

  /** The first index at or after i that holds a character of
      `[a-z0-9]`, or the length. */
  function AlnumStart(s: string, i: nat): (r: nat)
    requires i <= |s|
    decreases |s| - i
    ensures i <= r <= |s|
    ensures r < |s| ==> IsAlnum(s[r])
    ensures forall k :: i <= k < r ==> !IsAlnum(s[k])
  {
    if i < |s| && !IsAlnum(s[i]) then AlnumStart(s, i + 1) else i
  }

  /** `replace(/[^a-z0-9]+/g, "-")`: every maximal run of characters outside
      `[a-z0-9]` becomes one hyphen. */
  function Collapse(s: string): string
    decreases |s|
  {
    if s == [] then []
    else if IsAlnum(s[0]) then [s[0]] + Collapse(s[1..])
    else "-" + Collapse(s[AlnumStart(s, 0)..])
  }

  /** `replace(/(^-|-$)/g, "")`: a hyphen at the start and a hyphen at the
      end are removed. */
  function TrimHyphens(s: string): string {
    DropTrailingHyphen(DropLeadingHyphen(s))
  }

  /** The `^-` alternative: a hyphen at the start is removed. */
  function DropLeadingHyphen(s: string): string {
    if |s| > 0 && s[0] == '-' then s[1..] else s
  }

  /** The `-$` alternative: a hyphen at the end is removed. */
  function DropTrailingHyphen(s: string): string {
    if |s| > 0 && s[|s| - 1] == '-' then s[..|s| - 1] else s
  }

  /** generateSlug. toLowerCase is modelled for the ASCII letters. */
  function GenerateSlug(name: string): string {
    TrimHyphens(Collapse(Lower(name)))
  }

  /** The characters of `[a-z0-9]` in s, in order. */
  function Alnums(s: string): string {
    if s == [] then []
    else (if IsAlnum(s[0]) then [s[0]] else []) + Alnums(s[1..])
  }

  /** Collapse writes only slug characters and single hyphens; it starts
      with a hyphen exactly when the text starts outside `[a-z0-9]`, and it
      keeps the characters of `[a-z0-9]` in order. */
  lemma {:induction false} CollapseSpec(s: string)
    decreases |s|
    ensures forall k :: 0 <= k < |Collapse(s)| ==> SlugChar(Collapse(s)[k])
    ensures NoDoubleHyphen(Collapse(s))
    ensures |Collapse(s)| > 0 <==> |s| > 0
    ensures |s| > 0 ==> (Collapse(s)[0] == '-' <==> !IsAlnum(s[0]))
    ensures Alnums(Collapse(s)) == Alnums(s)
  {
    if s != [] {
      if IsAlnum(s[0]) {
        var rest := Collapse(s[1..]);
        CollapseSpec(s[1..]);
        assert Collapse(s) == [s[0]] + rest;
        assert ([s[0]] + rest)[1..] == rest;
      } else {
        var j := AlnumStart(s, 0);
        var rest := Collapse(s[j..]);
        CollapseSpec(s[j..]);
        assert Collapse(s) == "-" + rest;
        assert ("-" + rest)[1..] == rest;
        AlnumsSkip(s, j);
      }
    }
  }

  /** Skipping characters outside `[a-z0-9]` keeps the same Alnums. */
  lemma {:induction false} AlnumsSkip(s: string, j: nat)
    requires j <= |s|
    requires forall k :: 0 <= k < j ==> !IsAlnum(s[k])
    ensures Alnums(s) == Alnums(s[j..])
  {
    if j > 0 {
      assert s[1..][j - 1..] == s[j..];
      AlnumsSkip(s[1..], j - 1);
    }
  }

  /** Alnums distributes over concatenation. */
  lemma {:induction false} AlnumsAppend(a: string, b: string)
    ensures Alnums(a + b) == Alnums(a) + Alnums(b)
  {
    if a != [] {
      assert (a + b)[1..] == a[1..] + b;
      AlnumsAppend(a[1..], b);
    } else {
      assert a + b == b;
    }
  }

  /** Dropping a first hyphen keeps slug characters and single hyphens,
      leaves no hyphen in front, and keeps the same Alnums. */
  lemma DropLeadingSpec(s: string)
    requires forall k :: 0 <= k < |s| ==> SlugChar(s[k])
    requires NoDoubleHyphen(s)
    ensures var a := DropLeadingHyphen(s);
      && (forall k :: 0 <= k < |a| ==> SlugChar(a[k]))
      && NoDoubleHyphen(a)
      && (|a| > 0 ==> a[0] != '-')
      && Alnums(a) == Alnums(s)
  {
    if |s| > 0 && s[0] == '-' {
      var a := s[1..];
      assert forall k :: 0 <= k < |a| ==> a[k] == s[k + 1];
      assert |a| > 0 ==> !(s[0] == '-' && s[1] == '-');
    }
  }

  /** A prefix keeps slug characters and single hyphens. */
  lemma PrefixKeeps(a: string, n: nat)
    requires forall k :: 0 <= k < |a| ==> SlugChar(a[k])
    requires NoDoubleHyphen(a)
    requires n <= |a|
    ensures forall k :: 0 <= k < n ==> SlugChar(a[..n][k])
    ensures NoDoubleHyphen(a[..n])
  {
    assert forall k :: 0 <= k < n ==> a[..n][k] == a[k];
  }

  /** Dropping a last hyphen from a string that does not start with one
      leaves a slug with the same Alnums. */
  lemma DropLastHyphen(a: string)
    requires forall k :: 0 <= k < |a| ==> SlugChar(a[k])
    requires NoDoubleHyphen(a)
    requires |a| > 0 && a[0] != '-' && a[|a| - 1] == '-'
    ensures IsSlug(a[..|a| - 1])
    ensures Alnums(a[..|a| - 1]) == Alnums(a)
  {
    var n := |a| - 1;
    var b := a[..n];
    assert IsSlug(b) by {
      PrefixKeeps(a, n);
      if n > 0 {
        assert b[0] == a[0];
        assert b[n - 1] == a[n - 1];
        assert a[n] == '-';
        assert a[n - 1] != '-';
      }
    }
    assert Alnums(b) == Alnums(a) by {
      assert a == b + "-";
      AlnumsAppend(b, "-");
    }
  }

  /** Dropping a last hyphen from a string of slug characters with single
      hyphens that does not start with one leaves a slug with the same
      Alnums. */
  lemma DropTrailingSpec(a: string)
    requires forall k :: 0 <= k < |a| ==> SlugChar(a[k])
    requires NoDoubleHyphen(a)
    requires |a| > 0 ==> a[0] != '-'
    ensures IsSlug(DropTrailingHyphen(a))
    ensures Alnums(DropTrailingHyphen(a)) == Alnums(a)
  {
    if |a| > 0 && a[|a| - 1] == '-' {
      DropLastHyphen(a);
    }
  }

  /** Removing the end hyphens of a string of slug characters with no double
      hyphen leaves a slug with the same characters of `[a-z0-9]`. */
  lemma TrimHyphensSpec(s: string)
    requires forall k :: 0 <= k < |s| ==> SlugChar(s[k])
    requires NoDoubleHyphen(s)
    ensures IsSlug(TrimHyphens(s))
    ensures Alnums(TrimHyphens(s)) == Alnums(s)
  {
    DropLeadingSpec(s);
    DropTrailingSpec(DropLeadingHyphen(s));
  }

  /** generateSlug always gives a slug, and keeps the letters and digits of
      the lower-cased name in order; nothing else is added but hyphens. */
  lemma GenerateSlugSpec(name: string)
    ensures IsSlug(GenerateSlug(name))
    ensures Alnums(GenerateSlug(name)) == Alnums(Lower(name))
  {
    CollapseSpec(Lower(name));
    TrimHyphensSpec(Collapse(Lower(name)));
  }

  /** The first index at or after i that holds a character outside
      `[a-z0-9]`, or the length. */
  function AlnumEnd(s: string, i: nat): (r: nat)
    requires i <= |s|
    decreases |s| - i
    ensures i <= r <= |s|
    ensures r < |s| ==> !IsAlnum(s[r])
    ensures forall k :: i <= k < r ==> IsAlnum(s[k])
  {
    if i < |s| && IsAlnum(s[i]) then AlnumEnd(s, i + 1) else i
  }

  /** A non-empty run of `[a-z0-9]`. */
  predicate Group(g: string) {
    g != [] && forall k :: 0 <= k < |g| ==> IsAlnum(g[k])
  }

  /** The groups of s: its maximal non-empty runs of `[a-z0-9]`, in order. */
  function Groups(s: string): seq<string>
    decreases |s|
  {
    var i := AlnumStart(s, 0);
    if i == |s| then []
    else
      var j := AlnumEnd(s, i);
      [s[i..j]] + Groups(s[j..])
  }

  /** Every group is a non-empty run of `[a-z0-9]`. */
  lemma {:induction false} GroupsSpec(s: string)
    decreases |s|
    ensures forall k :: 0 <= k < |Groups(s)| ==> Group(Groups(s)[k])
  {
    var i := AlnumStart(s, 0);
    if i < |s| {
      var j := AlnumEnd(s, i);
      GroupsSpec(s[j..]);
      GroupsCons(s);
      FirstGroup(s, i, j);
    }
  }

  /** The groups of a text with one: its first group, then the groups of
      the rest. */
  lemma GroupsCons(s: string)
    requires AlnumStart(s, 0) < |s|
    ensures var i := AlnumStart(s, 0); var j := AlnumEnd(s, i);
      Groups(s) == [s[i..j]] + Groups(s[j..])
  {
  }

  /** The first group is a non-empty run of `[a-z0-9]`, and the rest
      starts outside the class. */
  lemma FirstGroup(s: string, i: nat, j: nat)
    requires i == AlnumStart(s, 0) < |s| && j == AlnumEnd(s, i)
    ensures Group(s[i..j])
    ensures j < |s| ==> !IsAlnum(s[j..][0])
  {
    assert forall k :: 0 <= k < j - i ==> s[i..j][k] == s[i + k];
  }

  /** The hyphen Collapse writes for a run outside `[a-z0-9]` at the start. */
  function Lead(s: string): string {
    if s != [] && !IsAlnum(s[0]) then "-" else ""
  }

  /** The hyphen Collapse writes for a run outside `[a-z0-9]` at the end,
      after the last group. */
  function Trail(s: string): string {
    if Groups(s) != [] && !IsAlnum(s[|s| - 1]) then "-" else ""
  }

  /** A run of `[a-z0-9]` passes through Collapse unchanged. */
  lemma {:induction false} CollapseAlnumRun(w: string, t: string)
    requires forall k :: 0 <= k < |w| ==> IsAlnum(w[k])
    decreases |w|
    ensures Collapse(w + t) == w + Collapse(t)
  {
    if w != [] {
      assert (w + t)[1..] == w[1..] + t;
      CollapseAlnumRun(w[1..], t);
      assert [w[0]] + w[1..] == w;
    } else {
      assert w + t == t;
    }
  }

  /** A run outside `[a-z0-9]` at the start becomes the leading hyphen. */
  lemma CollapseLead(s: string)
    ensures Collapse(s) == Lead(s) + Collapse(s[AlnumStart(s, 0)..])
  {
    if s != [] && IsAlnum(s[0]) {
      assert s[0..] == s;
    }
  }

  /** Joining a group in front of further groups puts one hyphen between. */
  lemma JoinGroupsCons(w: string, gs: seq<string>)
    requires gs != []
    ensures Join([w] + gs, '-') == w + "-" + Join(gs, '-')
  {
    assert ([w] + gs)[1..] == gs;
  }

  /** After the first group w of s, the rest t is empty or starts outside
      `[a-z0-9]`; the groups and the end hyphen of s follow from those of t. */
  lemma CollapseGroupsStep(s: string, i: nat, w: string, t: string)
    requires i <= |s| && s[i..] == w + t && Group(w)
    requires t != [] ==> !IsAlnum(t[0])
    requires Groups(s) == [w] + Groups(t)
    ensures w + (Lead(t) + Join(Groups(t), '-') + Trail(t)) == Join(Groups(s), '-') + Trail(s)
  {
    assert s == s[..i] + (w + t);
    if t == [] {
      StepEmpty(s, i, w, t);
    } else if Groups(t) == [] {
      StepNoGroup(s, i, w, t);
    } else {
      StepMore(s, i, w, t);
    }
  }

  /** The first group is the last character run: no end hyphen. */
  lemma StepEmpty(s: string, i: nat, w: string, t: string)
    requires i <= |s| && s[i..] == w + t && Group(w)
    requires t == []
    requires Groups(s) == [w] + Groups(t)
    ensures w + (Lead(t) + Join(Groups(t), '-') + Trail(t)) == Join(Groups(s), '-') + Trail(s)
  {
    assert s == s[..i] + (w + t);
    assert s[|s| - 1] == w[|w| - 1];
    assert Trail(s) == "";
    assert Groups(t) == [];
    assert Lead(t) + Join(Groups(t), '-') + Trail(t) == "";
    assert Join(Groups(s), '-') == w;
  }

  /** The first group is followed only by characters outside `[a-z0-9]`:
      they become the end hyphen. */
  lemma StepNoGroup(s: string, i: nat, w: string, t: string)
    requires i <= |s| && s[i..] == w + t && Group(w)
    requires t != [] && !IsAlnum(t[0])
    requires Groups(t) == []
    requires Groups(s) == [w] + Groups(t)
    ensures w + (Lead(t) + Join(Groups(t), '-') + Trail(t)) == Join(Groups(s), '-') + Trail(s)
  {
    assert s == s[..i] + (w + t);
    assert s[|s| - 1] == t[|t| - 1];
    assert AlnumStart(t, 0) == |t|;
    assert Trail(s) == "-";
    assert Lead(t) + Join(Groups(t), '-') + Trail(t) == "-";
    assert Join(Groups(s), '-') == w;
  }

  /** Two texts with groups that end in the same character get the same
      end hyphen. */
  lemma TrailSame(s: string, t: string)
    requires Groups(s) != [] && Groups(t) != []
    requires s != [] && t != [] && s[|s| - 1] == t[|t| - 1]
    ensures Trail(s) == Trail(t)
  {
  }

  /** Further groups follow: one hyphen joins the first group to them. */
  lemma StepMore(s: string, i: nat, w: string, t: string)
    requires i <= |s| && s[i..] == w + t && Group(w)
    requires t != [] && !IsAlnum(t[0])
    requires Groups(t) != []
    requires Groups(s) == [w] + Groups(t)
    ensures w + (Lead(t) + Join(Groups(t), '-') + Trail(t)) == Join(Groups(s), '-') + Trail(s)
  {
    var gs := Groups(t);
    var j, e := Join(gs, '-'), Trail(t);
    assert Trail(s) == e by {
      assert s[|s| - 1] == (w + t)[|w + t| - 1] == t[|t| - 1];
      TrailSame(s, t);
    }
    assert Join(Groups(s), '-') == w + "-" + j by {
      JoinGroupsCons(w, gs);
    }
    Associative("-", j, e);
    Associative(w, "-" + j, e);
    Associative(w, "-", j);
  }

  /** The first group of s and the rest after it: when the rest meets the
      claim of CollapseGroups, so does s. */
  lemma CollapseGroupsCons(s: string, i: nat, j: nat)
    requires i == AlnumStart(s, 0) < |s| && j == AlnumEnd(s, i)
    requires Collapse(s[j..]) == Lead(s[j..]) + Join(Groups(s[j..]), '-') + Trail(s[j..])
    ensures Collapse(s) == Lead(s) + Join(Groups(s), '-') + Trail(s)
  {
    var w, t := s[i..j], s[j..];
    var x := Lead(t) + Join(Groups(t), '-') + Trail(t);
    CollapseFirstGroup(s, i, j);
    GroupsCons(s);
    FirstGroup(s, i, j);
    assert s[i..] == w + t;
    CollapseGroupsStep(s, i, w, t);
    var l, g, e := Lead(s), Join(Groups(s), '-'), Trail(s);
    assert Collapse(s) == l + (w + x);
    assert w + x == g + e;
    Associative(l, g, e);
  }

  /** Concatenation is associative. */
  lemma Associative(a: string, b: string, c: string)
    ensures a + (b + c) == a + b + c
  {
  }

  /** Collapse writes the leading hyphen, then the first group unchanged,
      then the collapse of the rest. */
  lemma CollapseFirstGroup(s: string, i: nat, j: nat)
    requires i == AlnumStart(s, 0) < |s| && j == AlnumEnd(s, i)
    ensures Collapse(s) == Lead(s) + (s[i..j] + Collapse(s[j..]))
  {
    CollapseLead(s);
    assert s[i..] == s[i..j] + s[j..];
    CollapseAlnumRun(s[i..j], s[j..]);
  }

  /** Collapse writes the groups with one hyphen between each two, plus one
      hyphen for a run outside `[a-z0-9]` at the start and one at the end. */
  lemma {:induction false} CollapseGroups(s: string)
    decreases |s|
    ensures Collapse(s) == Lead(s) + Join(Groups(s), '-') + Trail(s)
  {
    var i := AlnumStart(s, 0);
    if i < |s| {
      var j := AlnumEnd(s, i);
      CollapseGroups(s[j..]);
      CollapseGroupsCons(s, i, j);
    } else {
      CollapseLead(s);
      assert Groups(s) == [];
    }
  }

  /** A join of groups is empty only when there are none, and otherwise
      starts and ends in `[a-z0-9]`. */
  lemma {:induction false} JoinGroupsEnds(gs: seq<string>)
    requires forall k :: 0 <= k < |gs| ==> Group(gs[k])
    ensures Join(gs, '-') == [] <==> gs == []
    ensures Join(gs, '-') != [] ==> IsAlnum(Join(gs, '-')[0]) && IsAlnum(Join(gs, '-')[|Join(gs, '-')| - 1])
  {
    if |gs| >= 2 {
      assert forall k :: 0 <= k < |gs[1..]| ==> gs[1..][k] == gs[k + 1];
      JoinGroupsEnds(gs[1..]);
    }
  }

  /** Removing the end hyphens of an optional hyphen, a text that neither
      starts nor ends with one, and an optional hyphen leaves the text. */
  lemma TrimAround(l: string, j: string, e: string)
    requires l == "" || l == "-"
    requires e == "" || e == "-"
    requires j == [] ==> e == ""
    requires j != [] ==> j[0] != '-' && j[|j| - 1] != '-'
    ensures TrimHyphens(l + j + e) == j
  {
    var c := l + j + e;
    if j == [] {
      assert c == l;
    } else {
      if l == "-" {
        assert c[1..] == j + e;
      } else {
        assert c == j + e;
      }
      assert DropLeadingHyphen(c) == j + e;
      if e == "-" {
        assert (j + e)[..|j + e| - 1] == j;
      } else {
        assert j + e == j;
      }
    }
  }

  /** Removing the end hyphens of Collapse leaves the groups joined by
      single hyphens. */
  lemma TrimCollapse(s: string)
    ensures TrimHyphens(Collapse(s)) == Join(Groups(s), '-')
  {
    var j := Join(Groups(s), '-');
    CollapseGroups(s);
    GroupsSpec(s);
    JoinGroupsEnds(Groups(s));
    TrimAround(Lead(s), j, Trail(s));
  }

  /** generateSlug writes the groups of the lower-cased name, that is its
      maximal runs of `[a-z0-9]`, joined by single hyphens, and "" when
      there are none. */
  lemma GenerateSlugGroups(name: string)
    ensures GenerateSlug(name) == Join(Groups(Lower(name)), '-')
  {
    TrimCollapse(Lower(name));
  }

  /** Slug characters, no double hyphen, and no hyphen at the end: what
      every suffix of a slug keeps. */
  predicate SlugTail(s: string) {
    && (forall k :: 0 <= k < |s| ==> SlugChar(s[k]))
    && NoDoubleHyphen(s)
    && (s == [] || s[|s| - 1] != '-')
  }

  /** Collapse leaves such a string alone: each hyphen is already a run of
      one. */
  lemma {:induction false} CollapseSlugTail(s: string)
    requires SlugTail(s)
    decreases |s|
    ensures Collapse(s) == s
  {
    if s != [] {
      if IsAlnum(s[0]) {
        CollapseSlugTail(s[1..]);
        assert [s[0]] + s[1..] == s;
      } else {
        assert s[0] == '-' && |s| >= 2 && s[1] != '-';
        assert AlnumStart(s, 0) == 1;
        CollapseSlugTail(s[1..]);
        assert "-" + s[1..] == s;
      }
    }
  }

  /** Lower leaves a string of slug characters alone. */
  lemma LowerSlug(s: string)
    requires forall k :: 0 <= k < |s| ==> SlugChar(s[k])
    ensures Lower(s) == s
  {
    LowerSpec(s);
  }

  /** A slug is a fixed point of generateSlug, and only a slug is: so
      normalising a typed slug again changes nothing, and generateSlug is
      idempotent. */
  lemma GenerateSlugFixedPoint(s: string)
    ensures GenerateSlug(s) == s <==> IsSlug(s)
    ensures GenerateSlug(GenerateSlug(s)) == GenerateSlug(s)
  {
    GenerateSlugSpec(s);
    if IsSlug(s) {
      LowerSlug(s);
      CollapseSlugTail(s);
    }
    var t := GenerateSlug(s);
    LowerSlug(t);
    CollapseSlugTail(t);
  }

  // ---------------------------------------------------------------------
  // The form state
  // ---------------------------------------------------------------------

  /** The first account is named as entered, or "Main Account" when the
      field is left empty. */
  function InitialAccountName(accountName: string): (r: string)
    ensures r != ""
    ensures accountName != "" ==> r == accountName
  {
    if accountName != "" then accountName else "Main Account"
  }

  /** The company fields of the onboarding form. */
  class OnboardingForm {
    var companyName: string
    var companySlug: string

    /** The slug is always a well-formed slug. */
    predicate Valid()
      reads this
    {
      IsSlug(companySlug)
    }

    /** The slug is still the one generated from the company name. */
    predicate Following()
      reads this
    {
      companySlug == GenerateSlug(companyName)
    }

    constructor ()
      ensures Valid() && companyName == "" && companySlug == ""
    {
      companyName := "";
      companySlug := "";
    }

    /** handleCompanyNameChange: the name is replaced; the slug is
        regenerated from the new name only when it is empty or still the
        one generated from the old name, and a slug edited by hand is
        kept. */
    method HandleCompanyNameChange(name: string)
      requires Valid()
      modifies this
      ensures companyName == name
      ensures old(companySlug) == "" || old(Following()) ==> companySlug == GenerateSlug(name) && Following()
      ensures old(companySlug) != "" && !old(Following()) ==> companySlug == old(companySlug)
      ensures Valid()
    {
      var previous := companyName;
      companyName := name;
      if companySlug == "" || companySlug == GenerateSlug(previous) {
        companySlug := GenerateSlug(name);
        GenerateSlugSpec(name);
      }
    }

    /** The onChange handler of the slug field: what is typed is normalised
        with generateSlug; a slug typed as such is kept as typed. */
    method HandleSlugInput(typed: string)
      modifies this
      ensures companyName == old(companyName)
      ensures companySlug == GenerateSlug(typed)
      ensures IsSlug(typed) ==> companySlug == typed
      ensures Valid()
    {
      companySlug := GenerateSlug(typed);
      GenerateSlugSpec(typed);
      GenerateSlugFixedPoint(typed);
    }
  }
}

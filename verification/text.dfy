/** The JavaScript string primitives the import/export code is built from:
    trim, toLowerCase, split and join with a one-character separator, and
    substring search. */
module Text {
  import opened Results

  /** The WhiteSpace and LineTerminator code points that JavaScript's
      String.prototype.trim removes (ECMA-262 sections 12.2 and 12.3). */
  predicate IsWhiteSpace(c: char) {
    if c < '\U{00A0}' then c == ' ' || '\t' <= c <= '\r'
    else
      || c == '\U{00A0}' || c == '\U{1680}' || ('\U{2000}' <= c <= '\U{200A}')
      || c == '\U{2028}' || c == '\U{2029}' || c == '\U{202F}' || c == '\U{205F}'
      || c == '\U{3000}' || c == '\U{FEFF}'
  }

  /** Neither end of the string is white space. */
  predicate IsTrimmed(s: string) {
    s == [] || (!IsWhiteSpace(s[0]) && !IsWhiteSpace(s[|s| - 1]))
  }

  /** The first index at or after i that does not hold white space. */
  function SpaceEnd(s: string, i: nat): (r: nat)
    requires i <= |s|
    decreases |s| - i
    ensures i <= r <= |s|
  {
    if i < |s| && IsWhiteSpace(s[i]) then SpaceEnd(s, i + 1) else i
  }

  /** What SpaceEnd skips is white space, and it stops at the first
      character that is not. */
  lemma {:induction false} SpaceEndSpec(s: string, i: nat)
    requires i <= |s|
    decreases |s| - i
    ensures forall k :: i <= k < SpaceEnd(s, i) ==> IsWhiteSpace(s[k])
    ensures SpaceEnd(s, i) == |s| || !IsWhiteSpace(s[SpaceEnd(s, i)])
  {
    if i < |s| && IsWhiteSpace(s[i]) {
      SpaceEndSpec(s, i + 1);
    }
  }

  /** The start of the run of white space that ends just before j. */
  function SpaceStart(s: string, j: nat): (r: nat)
    requires j <= |s|
    ensures r <= j
  {
    if j > 0 && IsWhiteSpace(s[j - 1]) then SpaceStart(s, j - 1) else j
  }

  /** What SpaceStart skips is white space, and it stops after the last
      character that is not. */
  lemma {:induction false} SpaceStartSpec(s: string, j: nat)
    requires j <= |s|
    ensures forall k :: SpaceStart(s, j) <= k < j ==> IsWhiteSpace(s[k])
    ensures SpaceStart(s, j) == 0 || !IsWhiteSpace(s[SpaceStart(s, j) - 1])
  {
    if j > 0 && IsWhiteSpace(s[j - 1]) {
      SpaceStartSpec(s, j - 1);
    }
  }

  /** Removes leading white space: what is kept is the suffix from the first
      character that is not white space. */
  function TrimStart(s: string): string {
    s[SpaceEnd(s, 0)..]
  }

  /** Removes trailing white space: what is kept is the prefix up to the
      last character that is not white space. */
  function TrimEnd(s: string): string {
    s[..SpaceStart(s, |s|)]
  }

  /** String.prototype.trim. */
  function Trim(s: string): string {
    TrimEnd(TrimStart(s))
  }

  /** Trim leaves neither end white space, never grows the string, and
      leaves a trimmed string alone. */
  lemma TrimSpec(s: string)
    ensures IsTrimmed(Trim(s)) && |Trim(s)| <= |s|
    ensures IsTrimmed(s) ==> Trim(s) == s
  {
    var t := TrimStart(s);
    var e := SpaceStart(t, |t|);
    SpaceEndSpec(s, 0);
    SpaceStartSpec(t, |t|);
    if e > 0 {
      assert t[..e][0] == t[0] && t[..e][e - 1] == t[e - 1];
      assert SpaceEnd(s, 0) < |s|;
      assert t[0] == s[SpaceEnd(s, 0)];
    }
    if IsTrimmed(s) && s != [] {
      assert SpaceEnd(s, 0) == 0;
      assert t == s;
      assert SpaceStart(t, |t|) == |t|;
    }
  }

  /** toLowerCase on one character, for the ASCII letters. */
  function LowerChar(c: char): (r: char)
    ensures 'A' <= c <= 'Z' ==> 'a' <= r <= 'z' && r as int == c as int + 32
    ensures !('A' <= c <= 'Z') ==> r == c
  {
    if 'A' <= c <= 'Z' then (c as int + 32) as char else c
  }

  /** String.prototype.toLowerCase, for the ASCII letters. */
  function Lower(s: string): (r: string)
    ensures |r| == |s|
  {
    if s == [] then [] else [LowerChar(s[0])] + Lower(s[1..])
  }

  /** Lower maps every character through LowerChar. */
  lemma {:induction false} LowerSpec(s: string)
    ensures forall k :: 0 <= k < |s| ==> Lower(s)[k] == LowerChar(s[k])
  {
    if s != [] {
      LowerSpec(s[1..]);
    }
  }

  /** Adds p to the front of the first of a non-empty list of fields. */
  function Prepend(p: string, fields: seq<string>): (r: seq<string>)
    requires |fields| >= 1
    ensures |r| == |fields| && r[0] == p + fields[0] && r[1..] == fields[1..]
  {
    [p + fields[0]] + fields[1..]
  }

  /** String.prototype.split with a one-character separator: the pieces
      between separators, never an empty list, and no piece holds the
      separator. */
  function Split(s: string, sep: char): (r: seq<string>)
    ensures |r| >= 1
    ensures forall k :: 0 <= k < |r| ==> sep !in r[k]
  {
    if s == [] then [""]
    else if s[0] == sep then [""] + Split(s[1..], sep)
    else Prepend([s[0]], Split(s[1..], sep))
  }

  /** Array.prototype.join with a one-character separator. */
  function Join(xs: seq<string>, sep: char): string
  {
    if |xs| == 0 then ""
    else if |xs| == 1 then xs[0]
    else xs[0] + [sep] + Join(xs[1..], sep)
  }

  /** A separator-free chunk in front of the text lands in the first piece. */
  lemma {:induction false} SplitChunk(w: string, rest: string, sep: char)
    requires sep !in w
    ensures Split(w + rest, sep) == Prepend(w, Split(rest, sep))
  {
    if w == [] {
      var f := Split(rest, sep);
      assert w + rest == rest;
      assert w + f[0] == f[0];
      assert [f[0]] + f[1..] == f;
    } else {
      assert (w + rest)[0] == w[0];
      assert (w + rest)[1..] == w[1..] + rest;
      SplitChunk(w[1..], rest, sep);
      var f := Split(rest, sep);
      var g := Prepend(w[1..], f);
      assert Split(w + rest, sep) == Prepend([w[0]], g);
      assert [w[0]] + (w[1..] + f[0]) == w + f[0];
    }
  }

  /** Splitting undoes joining when no piece holds the separator. */
  lemma {:induction false} SplitJoin(xs: seq<string>, sep: char)
    requires |xs| >= 1
    requires forall k :: 0 <= k < |xs| ==> sep !in xs[k]
    ensures Split(Join(xs, sep), sep) == xs
  {
    if |xs| == 1 {
      SplitChunk(xs[0], "", sep);
      assert xs[0] + "" == xs[0];
    } else {
      var tail := Join(xs[1..], sep);
      SplitJoin(xs[1..], sep);
      assert ([sep] + tail)[0] == sep && ([sep] + tail)[1..] == tail;
      assert Split([sep] + tail, sep) == [""] + xs[1..];
      assert xs[0] + [sep] + tail == xs[0] + ([sep] + tail);
      SplitChunk(xs[0], [sep] + tail, sep);
      assert xs[0] + "" == xs[0];
      assert [xs[0]] + xs[1..] == xs;
    }
  }

  lemma {:induction false} JoinPrepend(p: string, fields: seq<string>, sep: char)
    requires |fields| >= 1
    ensures Join(Prepend(p, fields), sep) == p + Join(fields, sep)
  {
    var r := Prepend(p, fields);
    if |fields| > 1 {
      assert r[1..] == fields[1..];
    }
  }

  /** Joining undoes splitting. */
  lemma {:induction false} JoinSplit(s: string, sep: char)
    ensures Join(Split(s, sep), sep) == s
  {
    if s != [] {
      JoinSplit(s[1..], sep);
      if s[0] == sep {
        var f := Split(s[1..], sep);
        assert ([""] + f)[1..] == f;
        assert [s[0]] + s[1..] == s;
      } else {
        JoinPrepend([s[0]], Split(s[1..], sep), sep);
        assert [s[0]] + s[1..] == s;
      }
    }
  }

  /** pat occurs in s starting at index k. */
  predicate OccursAt(s: string, pat: string, k: int) {
    0 <= k && k + |pat| <= |s| && s[k..k + |pat|] == pat
  }

  /** The first occurrence of pat at or after from, or none (what
      String.prototype.indexOf(pat, from) finds for a non-empty pat). */
  function FindFrom(s: string, pat: string, from: nat): (r: Option<nat>)
    decreases |s| - from
    ensures r.Some? ==> from <= r.value && r.value + |pat| <= |s|
  {
    if from + |pat| > |s| then None
    else if s[from..from + |pat|] == pat then Some(from)
    else FindFrom(s, pat, from + 1)
  }

  /** FindFrom finds an occurrence, and the first one. */
  lemma {:induction false} FindFromSpec(s: string, pat: string, from: nat)
    decreases |s| - from
    ensures FindFrom(s, pat, from).Some? ==> OccursAt(s, pat, FindFrom(s, pat, from).value)
    ensures FindFrom(s, pat, from).Some? ==>
      forall k :: from <= k < FindFrom(s, pat, from).value ==> !OccursAt(s, pat, k)
    ensures FindFrom(s, pat, from).None? ==> forall k :: from <= k ==> !OccursAt(s, pat, k)
  {
    if from + |pat| <= |s| && s[from..from + |pat|] != pat {
      FindFromSpec(s, pat, from + 1);
    }
  }
}

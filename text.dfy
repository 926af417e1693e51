/** The .NET string operations the generator relies on, written out over
    `seq<char>`: splitting on a separator, trimming white space, ASCII case
    folding, ordinal `Replace`, and decimal formatting of integers. */
module Text {

  // ---------------------------------------------------------------------------
  // White space and trimming (string.Trim)
  // ---------------------------------------------------------------------------

  /** The characters for which .NET's `char.IsWhiteSpace` holds. */
  predicate IsWhiteSpace(c: char) {
    || c == ' '
    || '\t' <= c <= '\r'
    || c == '\U{85}' || c == '\U{A0}' || c == '\U{1680}'
    || '\U{2000}' <= c <= '\U{200A}'
    || c == '\U{2028}' || c == '\U{2029}' || c == '\U{202F}'
    || c == '\U{205F}' || c == '\U{3000}'
  }

  predicate AllWhiteSpace(s: string) {
    forall k :: 0 <= k < |s| ==> IsWhiteSpace(s[k])
  }

  /** Drops the leading white space. */
  function TrimStart(s: string): string {
    if s != [] && IsWhiteSpace(s[0]) then TrimStart(s[1..]) else s
  }

  /** Drops the trailing white space. */
  function TrimEnd(s: string): string {
    if s != [] && IsWhiteSpace(s[|s| - 1]) then TrimEnd(s[..|s| - 1]) else s
  }

  /** string.Trim(): drops the white space at both ends. */
  function Trim(s: string): string {
    TrimEnd(TrimStart(s))
  }

  /** What TrimStart leaves is a suffix of `s`, empty or starting with a
      non-white-space character, and all it cut off is white space. */
  lemma {:induction false} TrimStartShape(s: string)
    ensures var r := TrimStart(s);
      |r| <= |s| && r == s[|s| - |r|..] && AllWhiteSpace(s[..|s| - |r|])
      && (r != [] ==> !IsWhiteSpace(r[0]))
  {
    if s != [] && IsWhiteSpace(s[0]) {
      TrimStartShape(s[1..]);
      var r := TrimStart(s);
      assert s[1..][|s| - 1 - |r|..] == s[|s| - |r|..];
      assert s[..|s| - |r|] == [s[0]] + s[1..][..|s| - 1 - |r|];
    }
  }

  /** What TrimEnd leaves is a prefix of `s`, empty or ending with a
      non-white-space character, and all it cut off is white space. */
  lemma {:induction false} TrimEndShape(s: string)
    ensures var r := TrimEnd(s);
      |r| <= |s| && r == s[..|r|] && AllWhiteSpace(s[|r|..])
      && (r != [] ==> !IsWhiteSpace(r[|r| - 1]))
  {
    if s != [] && IsWhiteSpace(s[|s| - 1]) {
      TrimEndShape(s[..|s| - 1]);
      var r := TrimEnd(s);
      assert s[..|s| - 1][..|r|] == s[..|r|];
      assert s[|r|..] == s[..|s| - 1][|r|..] + [s[|s| - 1]];
    }
  }

  /** What Trim leaves is the middle of `s`: it neither starts nor ends with
      white space, and everything cut off on either side is white space. */
  lemma TrimShape(s: string)
    ensures var r := Trim(s);
      exists i :: 0 <= i <= |s| - |r| && AllWhiteSpace(s[..i])
                  && r == s[i..i + |r|] && AllWhiteSpace(s[i + |r|..])
    ensures Trim(s) != [] ==> !IsWhiteSpace(Trim(s)[0]) && !IsWhiteSpace(Trim(s)[|Trim(s)| - 1])
  {
    var t := TrimStart(s);
    var r := TrimEnd(t);
    TrimStartShape(s);
    TrimEndShape(t);
    var i := |s| - |t|;
    assert r == s[i..i + |r|];
    assert s[i + |r|..] == t[|r|..];
  }

  /** `r` is `s` with a white-space prefix and a white-space suffix cut off,
      and neither starts nor ends with white space: what `Trim()` returns. */
  predicate TrimmedFrom(r: string, s: string) {
    && (exists a :: 0 <= a <= |s| - |r| && AllWhiteSpace(s[..a])
                    && r == s[a..a + |r|] && AllWhiteSpace(s[a + |r|..]))
    && (r != [] ==> !IsWhiteSpace(r[0]) && !IsWhiteSpace(r[|r| - 1]))
  }

  lemma TrimIsTrimmedFrom(s: string)
    ensures TrimmedFrom(Trim(s), s)
  {
    TrimShape(s);
  }

  /** A string that neither starts nor ends with white space is its own
      trimmed form. */
  lemma TrimNoEdgeWhiteSpace(s: string)
    requires s != [] ==> !IsWhiteSpace(s[0]) && !IsWhiteSpace(s[|s| - 1])
    ensures Trim(s) == s
  {}

  /** Trimming only removes characters. */
  lemma TrimKeepsAbsent(s: string, c: char)
    requires c !in s
    ensures c !in Trim(s)
  {
    var t := TrimStart(s);
    var r := TrimEnd(t);
    TrimStartShape(s);
    TrimEndShape(t);
    forall k | 0 <= k < |r| ensures r[k] != c {
      assert r[k] == t[k] == s[|s| - |t| + k];
    }
  }

  /** Trimming a string that is already trimmed changes nothing. */
  lemma TrimIdempotent(s: string)
    ensures Trim(Trim(s)) == Trim(s)
  {
    var t := Trim(s);
    TrimShape(s);
    assert TrimStart(t) == t;
    assert TrimEnd(t) == t;
  }

  // ---------------------------------------------------------------------------
  // Splitting and joining on one separator (string.Split(","), string.Join)
  // ---------------------------------------------------------------------------

  /** string.Split with a one-character separator and no options: one piece
      per separator plus one, empty pieces kept, no piece holds `sep`. */
  function Split(s: string, sep: char): (parts: seq<string>)
    ensures |parts| >= 1
    ensures forall i :: 0 <= i < |parts| ==> sep !in parts[i]
  {
    if s == [] then [[]]
    else
      var rest := Split(s[1..], sep);
      if s[0] == sep then [[]] + rest else [[s[0]] + rest[0]] + rest[1..]
  }

  function Join(parts: seq<string>, sep: char): string {
    if parts == [] then []
    else if |parts| == 1 then parts[0]
    else parts[0] + [sep] + Join(parts[1..], sep)
  }

  lemma JoinCons(a: string, rest: seq<string>, sep: char)
    requires rest != []
    ensures Join([a] + rest, sep) == a + [sep] + Join(rest, sep)
  {
    assert ([a] + rest)[1..] == rest;
  }

  /** Joining the pieces back with the separator gives the original string. */
  lemma {:induction false} JoinSplit(s: string, sep: char)
    ensures Join(Split(s, sep), sep) == s
  {
    if s != [] {
      var rest := Split(s[1..], sep);
      JoinSplit(s[1..], sep);
      if s[0] == sep {
        JoinCons([], rest, sep);
      } else if |rest| == 1 {
        assert Split(s, sep) == [[s[0]] + rest[0]];
      } else {
        assert Split(s, sep) == [[s[0]] + rest[0]] + rest[1..];
        JoinCons([s[0]] + rest[0], rest[1..], sep);
        JoinCons(rest[0], rest[1..], sep);
        assert rest == [rest[0]] + rest[1..];
        assert s == [s[0]] + s[1..];
      }
    }
  }

  /** Splitting a string whose first `|a|` characters hold no separator puts
      all of `a` at the front of the first piece. */
  lemma {:induction false} SplitPrefix(a: string, t: string, sep: char)
    requires sep !in a
    ensures Split(a + t, sep) == [a + Split(t, sep)[0]] + Split(t, sep)[1..]
  {
    if a != [] {
      var st := Split(t, sep);
      assert (a + t)[0] == a[0] != sep;
      assert (a + t)[1..] == a[1..] + t;
      SplitPrefix(a[1..], t, sep);
      var rest := Split(a[1..] + t, sep);
      assert rest[0] == a[1..] + st[0] && rest[1..] == st[1..];
      assert Split(a + t, sep) == [[a[0]] + rest[0]] + rest[1..];
      assert [a[0]] + (a[1..] + st[0]) == a + st[0];
    } else {
      var st := Split(t, sep);
      assert a + t == t;
      assert a + st[0] == st[0];
      assert st == [st[0]] + st[1..];
    }
  }

  /** Splitting the join of separator-free pieces gives the pieces back. */
  lemma {:induction false} SplitJoin(parts: seq<string>, sep: char)
    requires |parts| >= 1
    requires forall i :: 0 <= i < |parts| ==> sep !in parts[i]
    ensures Split(Join(parts, sep), sep) == parts
  {
    if |parts| == 1 {
      SplitPrefix(parts[0], [], sep);
      assert parts[0] + [] == parts[0];
    } else {
      var a, rest := parts[0], parts[1..];
      SplitJoin(rest, sep);
      var j := Join(rest, sep);
      assert Join(parts, sep) == a + ([sep] + j);
      SplitPrefix(a, [sep] + j, sep);
      assert ([sep] + j)[1..] == j;
      assert Split([sep] + j, sep) == [[]] + Split(j, sep);
      assert a + [] == a;
      assert parts == [a] + rest;
    }
  }

  // ---------------------------------------------------------------------------
  // ASCII case folding
  // ---------------------------------------------------------------------------

  function LowerChar(c: char): char {
    if 'A' <= c <= 'Z' then (c as int + 32) as char else c
  }

  /** Ordinal comparison ignoring (ASCII) case: same length, and the
      characters agree pairwise once folded to lower case. */
  predicate EqualsIgnoreCase(a: string, b: string) {
    |a| == |b| && (a == [] || (LowerChar(a[0]) == LowerChar(b[0]) && EqualsIgnoreCase(a[1..], b[1..])))
  }

  /** The comparison is the character-wise one. */
  lemma {:induction false} EqualsIgnoreCaseAt(a: string, b: string)
    ensures EqualsIgnoreCase(a, b) <==>
      |a| == |b| && forall i :: 0 <= i < |a| ==> LowerChar(a[i]) == LowerChar(b[i])
  {
    if |a| == |b| && a != [] {
      EqualsIgnoreCaseAt(a[1..], b[1..]);
      assert forall i :: 1 <= i < |a| ==> a[i] == a[1..][i - 1] && b[i] == b[1..][i - 1];
    }
  }

  lemma {:induction false} EqualsIgnoreCaseReflexive(a: string)
    ensures EqualsIgnoreCase(a, a)
  {
    if a != [] {
      EqualsIgnoreCaseReflexive(a[1..]);
    }
  }

  /** Two strings equal to a third up to case are equal to each other up to case. */
  lemma EqualsIgnoreCaseBothTo(a: string, b: string, t: string)
    requires EqualsIgnoreCase(a, t) && EqualsIgnoreCase(b, t)
    ensures EqualsIgnoreCase(a, b)
  {
    EqualsIgnoreCaseAt(a, t);
    EqualsIgnoreCaseAt(b, t);
    EqualsIgnoreCaseAt(a, b);
  }

  // ---------------------------------------------------------------------------
  // Ordinal replacement of every occurrence (string.Replace(string, string))
  // ---------------------------------------------------------------------------

  predicate OccursAt(s: string, pat: string, i: int) {
    0 <= i && i + |pat| <= |s| && s[i..i + |pat|] == pat
  }

  /** Scans `s` from the left; every non-overlapping occurrence of `pat` is
      replaced by `rep`, and text produced by a replacement is not rescanned. */
  function Replace(s: string, pat: string, rep: string): string
    requires pat != []
    decreases |s|
  {
    if |s| < |pat| then s
    else if s[..|pat|] == pat then rep + Replace(s[|pat|..], pat, rep)
    else [s[0]] + Replace(s[1..], pat, rep)
  }

  lemma OccursAtShift(s: string, pat: string, j: int)
    requires s != [] && j >= 0
    ensures OccursAt(s[1..], pat, j) <==> OccursAt(s, pat, j + 1)
  {
    if 0 <= j && j + |pat| <= |s| - 1 {
      assert s[1..][j..j + |pat|] == s[j + 1..j + 1 + |pat|];
    }
  }

  /** A string without any occurrence of the pattern is left as it is. */
  lemma {:induction false} ReplaceNoOccurrence(s: string, pat: string, rep: string)
    requires pat != []
    requires forall i :: !OccursAt(s, pat, i)
    ensures Replace(s, pat, rep) == s
    decreases |s|
  {
    if |s| >= |pat| {
      ReplaceKeepsFront(s, pat, rep);
      forall j ensures !OccursAt(s[1..], pat, j) {
        if j >= 0 { OccursAtShift(s, pat, j); }
      }
      ReplaceNoOccurrence(s[1..], pat, rep);
      assert s == [s[0]] + s[1..];
    }
  }

  lemma SeqAssoc(a: string, b: string, c: string, d: string)
    ensures a + (b + c + d) == (a + b) + c + d
  {}

  /** An occurrence at the front is replaced. */
  lemma ReplaceAtFront(s: string, pat: string, rep: string)
    requires pat != [] && OccursAt(s, pat, 0)
    ensures Replace(s, pat, rep) == rep + Replace(s[|pat|..], pat, rep)
  {
    assert s[..|pat|] == s[0..0 + |pat|];
  }

  /** Without an occurrence at the front, the first character is kept. */
  lemma ReplaceKeepsFront(s: string, pat: string, rep: string)
    requires pat != [] && |pat| <= |s| && !OccursAt(s, pat, 0)
    ensures Replace(s, pat, rep) == [s[0]] + Replace(s[1..], pat, rep)
  {
    assert s[..|pat|] == s[0..0 + |pat|];
  }

  /** The leftmost occurrence is replaced and the scan resumes right after it. */
  lemma {:induction false} ReplaceFirstOccurrence(s: string, pat: string, rep: string, i: nat)
    requires pat != []
    requires OccursAt(s, pat, i)
    requires forall j :: 0 <= j < i ==> !OccursAt(s, pat, j)
    ensures Replace(s, pat, rep) == s[..i] + rep + Replace(s[i + |pat|..], pat, rep)
    decreases i
  {
    if i == 0 {
      ReplaceAtFront(s, pat, rep);
    } else {
      NoEarlierOccurrenceShift(s, pat, i);
      ReplaceFirstOccurrence(s[1..], pat, rep, i - 1);
      assert !OccursAt(s, pat, 0);
      assert i + |pat| <= |s|;
      assert Replace(s[1..], pat, rep) == s[1..][..i - 1] + rep + Replace(s[1..][i - 1 + |pat|..], pat, rep);
      ReplaceAfterKeptFront(s, pat, rep, i);
    }
  }

  /** The inductive step of `ReplaceFirstOccurrence`: a first character that
      starts no occurrence is kept in front of the rest's replacement. */
  lemma ReplaceAfterKeptFront(s: string, pat: string, rep: string, i: int)
    requires pat != [] && 1 <= i && i + |pat| <= |s| && !OccursAt(s, pat, 0)
    requires Replace(s[1..], pat, rep) == s[1..][..i - 1] + rep + Replace(s[1..][i - 1 + |pat|..], pat, rep)
    ensures Replace(s, pat, rep) == s[..i] + rep + Replace(s[i + |pat|..], pat, rep)
  {
    ReplaceKeepsFront(s, pat, rep);
    var t := s[1..];
    assert t[i - 1 + |pat|..] == s[i + |pat|..];
    var tail := Replace(s[i + |pat|..], pat, rep);
    assert Replace(s, pat, rep) == [s[0]] + (t[..i - 1] + rep + tail);
    SeqAssoc([s[0]], t[..i - 1], rep, tail);
    assert s[..i] == [s[0]] + t[..i - 1];
  }

  /** An occurrence at `i` with none before it, seen from the second
      character on. */
  lemma NoEarlierOccurrenceShift(s: string, pat: string, i: int)
    requires 1 <= i && OccursAt(s, pat, i)
    requires forall j :: 0 <= j < i ==> !OccursAt(s, pat, j)
    ensures OccursAt(s[1..], pat, i - 1)
    ensures forall j :: 0 <= j < i - 1 ==> !OccursAt(s[1..], pat, j)
  {
    OccursAtShift(s, pat, i - 1);
    forall j | 0 <= j < i - 1 ensures !OccursAt(s[1..], pat, j) {
      OccursAtShift(s, pat, j);
    }
  }

  /** An occurrence starts with the pattern's first character, so a pattern
      whose first character is absent from `s` never occurs in it. */
  lemma OccurrenceLead(s: string, pat: string)
    requires pat != []
    ensures forall i :: OccursAt(s, pat, i) ==> s[i] == pat[0]
  {
    forall i | OccursAt(s, pat, i) ensures s[i] == pat[0] {
      assert s[i..i + |pat|][0] == s[i];
    }
  }

  /** A pattern whose first character does not appear in `s` leaves `s`
      unchanged. */
  lemma ReplaceAbsentLead(s: string, pat: string, rep: string)
    requires pat != [] && pat[0] !in s
    ensures Replace(s, pat, rep) == s
  {
    OccurrenceLead(s, pat);
    ReplaceNoOccurrence(s, pat, rep);
  }

  /** A pattern occurring exactly once is replaced there and only there. */
  lemma ReplaceSingleOccurrence(pre: string, pat: string, post: string, rep: string)
    requires pat != []
    requires forall j :: OccursAt(pre + pat + post, pat, j) ==> j == |pre|
    ensures Replace(pre + pat + post, pat, rep) == pre + rep + post
  {
    var s := pre + pat + post;
    assert s[|pre|..|pre| + |pat|] == pat;
    ReplaceFirstOccurrence(s, pat, rep, |pre|);
    assert s[..|pre|] == pre && s[|pre| + |pat|..] == post;
    forall i | OccursAt(post, pat, i) ensures false {
      assert s[|pre| + |pat| + i..|pre| + |pat| + i + |pat|] == post[i..i + |pat|];
      assert OccursAt(s, pat, |pre| + |pat| + i);
    }
    ReplaceNoOccurrence(post, pat, rep);
  }

  /** A pattern whose first character appears nowhere around its one
      occurrence is replaced there and only there. */
  lemma ReplaceLoneLead(pre: string, pat: string, post: string, rep: string)
    requires pat != [] && pat[0] !in pre && pat[0] !in post
    ensures Replace(pre + pat + post, pat, rep) == pre + rep + post
  {
    var s := pre + pat + post;
    OccurrenceLead(s, pat);
    assert s[|pre|..|pre| + |pat|] == pat;
    forall j | 0 <= j < |pre| ensures !OccursAt(s, pat, j) {
      assert s[j] == pre[j];
    }
    ReplaceFirstOccurrence(s, pat, rep, |pre|);
    assert s[..|pre|] == pre && s[|pre| + |pat|..] == post;
    ReplaceAbsentLead(post, pat, rep);
  }

  /** A pattern that shares its first character with `ph`, differs from it
      at position `k`, and whose first character appears nowhere else in
      `pre + ph + post`, does not occur there. */
  lemma ReplaceOtherLead(pre: string, ph: string, post: string, pat: string, rep: string, k: int)
    requires pat != [] && ph != [] && ph[0] == pat[0]
    requires pat[0] !in pre && pat[0] !in ph[1..] && pat[0] !in post
    requires 1 <= k < |ph| && k < |pat| && ph[k] != pat[k]
    ensures Replace(pre + ph + post, pat, rep) == pre + ph + post
  {
    var s := pre + ph + post;
    OccurrenceLead(s, pat);
    ReplaceNoOccurrence(s, pat, rep);
  }

  /** A pattern that occurs once before another placeholder `ph`, which
      starts like it but differs at position `k`, is replaced there and
      nowhere else. */
  lemma ReplaceBeforeOther(pre: string, pat: string, mid: string, ph: string, post: string, rep: string, k: int)
    requires pat != [] && ph != [] && ph[0] == pat[0]
    requires pat[0] !in pre && pat[0] !in mid && pat[0] !in ph[1..] && pat[0] !in post
    requires 1 <= k < |ph| && k < |pat| && ph[k] != pat[k]
    ensures Replace(pre + pat + (mid + ph + post), pat, rep) == pre + rep + (mid + ph + post)
  {
    var rest := mid + ph + post;
    var s := pre + pat + rest;
    OccurrenceLead(s, pat);
    assert s[|pre|..|pre| + |pat|] == pat;
    forall j | 0 <= j < |pre| ensures !OccursAt(s, pat, j) {
      assert s[j] == pre[j];
    }
    ReplaceFirstOccurrence(s, pat, rep, |pre|);
    assert s[..|pre|] == pre && s[|pre| + |pat|..] == rest;
    ReplaceOtherLead(mid, ph, post, pat, rep, k);
  }

  /** Replacing never brings in a character that neither the text nor the
      replacement holds. */
  lemma {:induction false} ReplaceKeepsAbsent(s: string, pat: string, rep: string, c: char)
    requires pat != [] && c !in s && c !in rep
    ensures c !in Replace(s, pat, rep)
    decreases |s|
  {
    if |s| >= |pat| {
      if s[..|pat|] == pat {
        ReplaceKeepsAbsent(s[|pat|..], pat, rep, c);
      } else {
        ReplaceKeepsAbsent(s[1..], pat, rep, c);
      }
    }
  }

  /** `Replace` called once per step, in order, each on the previous
      result: `s.Replace(p1, r1).Replace(p2, r2)...`. */
  function ReplaceChain(s: string, steps: seq<(string, string)>): string
    requires forall i :: 0 <= i < |steps| ==> steps[i].0 != []
    decreases |steps|
  {
    if steps == [] then s else ReplaceChain(Replace(s, steps[0].0, steps[0].1), steps[1..])
  }

  /** A chain whose patterns all start with characters absent from `s`
      leaves `s` unchanged. */
  lemma {:induction false} ReplaceChainAbsentLeads(s: string, steps: seq<(string, string)>)
    requires forall i :: 0 <= i < |steps| ==> steps[i].0 != [] && steps[i].0[0] !in s
    ensures ReplaceChain(s, steps) == s
    decreases |steps|
  {
    if steps != [] {
      ReplaceAbsentLead(s, steps[0].0, steps[0].1);
      ReplaceChainAbsentLeads(s, steps[1..]);
    }
  }

  /** Placeholder-style patterns: each starts with `lead`, holds no other
      `lead`, and no two agree on their second character. */
  predicate DistinctLeads(steps: seq<(string, string)>, lead: char) {
    && (forall i :: 0 <= i < |steps| ==>
          |steps[i].0| >= 2 && steps[i].0[0] == lead && lead !in steps[i].0[1..])
    && (forall i, j :: 0 <= i < j < |steps| ==> steps[i].0[1] != steps[j].0[1])
  }

  /** A text `pre + p + post` in which `p`, the pattern of step `k`, holds the
      only `lead` character goes through the chain as `pre + r + post`, `r`
      being step `k`'s replacement. */
  lemma {:induction false} ReplaceChainSingle(pre: string, post: string, steps: seq<(string, string)>, k: int, lead: char)
    requires 0 <= k < |steps| && DistinctLeads(steps, lead)
    requires lead !in pre && lead !in post && lead !in steps[k].1
    ensures ReplaceChain(pre + steps[k].0 + post, steps) == pre + steps[k].1 + post
    decreases |steps|
  {
    var ph := steps[k].0;
    if k == 0 {
      ReplaceLoneLead(pre, ph, post, steps[0].1);
      var t := pre + steps[0].1 + post;
      assert lead !in t;
      ReplaceChainAbsentLeads(t, steps[1..]);
    } else {
      ReplaceOtherLead(pre, ph, post, steps[0].0, steps[0].1, 1);
      assert DistinctLeads(steps[1..], lead);
      ReplaceChainSingle(pre, post, steps[1..], k - 1, lead);
    }
  }

  /** A text holding the first two steps' patterns, in order, as its only
      `lead` characters goes through the chain with both replaced. */
  lemma ReplaceChainFirstTwo(pre: string, mid: string, post: string, steps: seq<(string, string)>, lead: char)
    requires |steps| >= 2 && DistinctLeads(steps, lead)
    requires lead !in pre && lead !in mid && lead !in post && lead !in steps[0].1 && lead !in steps[1].1
    ensures ReplaceChain(pre + steps[0].0 + mid + steps[1].0 + post, steps)
      == pre + steps[0].1 + mid + steps[1].1 + post
  {
    var p0, p1, r0 := steps[0].0, steps[1].0, steps[0].1;
    ReplaceBeforeOther(pre, p0, mid, p1, post, r0, 1);
    assert pre + p0 + mid + p1 + post == pre + p0 + (mid + p1 + post);
    assert DistinctLeads(steps[1..], lead);
    ReplaceChainSingle(pre + r0 + mid, post, steps[1..], 0, lead);
    assert pre + r0 + (mid + p1 + post) == (pre + r0 + mid) + p1 + post;
  }

  // ---------------------------------------------------------------------------
  // Decimal formatting (int.ToString() with the invariant culture)
  // ---------------------------------------------------------------------------

  predicate IsDigit(c: char) {
    '0' <= c <= '9'
  }

  function DigitChar(d: nat): (c: char)
    requires d < 10
  {
    (d + '0' as int) as char
  }

  function DigitValue(c: char): nat
    requires IsDigit(c)
  {
    c as int - '0' as int
  }

  /** The shortest decimal digits of `n`, most significant first. */
  function NatToString(n: nat): (r: string)
    ensures |r| >= 1
    ensures forall k :: 0 <= k < |r| ==> IsDigit(r[k])
    ensures |r| > 1 ==> r[0] != '0'
  {
    if n < 10 then [DigitChar(n)] else NatToString(n / 10) + [DigitChar(n % 10)]
  }

  predicate AllDigits(s: string) {
    forall k :: 0 <= k < |s| ==> IsDigit(s[k])
  }

  /** Reads a digit string back as a number. */
  function ParseDigits(s: string): nat
    requires AllDigits(s)
  {
    if s == [] then 0 else ParseDigits(s[..|s| - 1]) * 10 + DigitValue(s[|s| - 1])
  }

  /** The decimal text of a number reads back as that number. */
  lemma {:induction false} ParseNatToString(n: nat)
    ensures ParseDigits(NatToString(n)) == n
  {
    if n >= 10 {
      ParseNatToString(n / 10);
      var r := NatToString(n);
      assert r[..|r| - 1] == NatToString(n / 10);
    }
  }

  /** Distinct numbers have distinct decimal texts. */
  lemma NatToStringInjective(a: nat, b: nat)
    requires NatToString(a) == NatToString(b)
    ensures a == b
  {
    ParseNatToString(a);
    ParseNatToString(b);
  }

  /** int.ToString(): a minus sign before the digits of a negative number. */
  function IntToString(i: int): (r: string)
    ensures forall k :: 0 <= k < |r| ==> IsDigit(r[k]) || r[k] == '-'
    ensures i >= 0 ==> AllDigits(r) && ParseDigits(r) == i
    ensures i < 0 ==> |r| >= 2 && r[0] == '-' && AllDigits(r[1..]) && ParseDigits(r[1..]) == -i
  {
    if i < 0 then
      var digits := NatToString(-i);
      ParseNatToString(-i);
      assert ("-" + digits)[1..] == digits;
      "-" + digits
    else ParseNatToString(i); NatToString(i)
  }

  /** A number below ten is written as its one digit. */
  lemma SingleDigitText(d: int)
    requires 0 <= d < 10
    ensures IntToString(d) == [DigitChar(d)]
  {}

  /** The text of a number holds no character other than digits and '-'. */
  lemma IntToStringOmits(i: int, c: char)
    requires !IsDigit(c) && c != '-'
    ensures c !in IntToString(i)
  {
    var r := IntToString(i);
    assert forall k :: 0 <= k < |r| ==> r[k] != c;
  }

  /** Distinct integers have distinct texts. */
  lemma IntToStringInjective(a: int, b: int)
    ensures IntToString(a) == IntToString(b) ==> a == b
  {
    var ra, rb := IntToString(a), IntToString(b);
    if a < 0 && b < 0 {
      if ra == rb {
        assert ra[1..] == NatToString(-a) && rb[1..] == NatToString(-b);
        NatToStringInjective(-a, -b);
      }
    } else if a < 0 {
      assert ra[0] != rb[0];
    } else if b < 0 {
      assert ra[0] != rb[0];
    } else if ra == rb {
      NatToStringInjective(a, b);
    }
  }
}

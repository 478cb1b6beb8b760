/** `sanitize_filename` of both tutorial scrapers: drop the characters a file
    name may not hold, turn spaces into underscores, collapse runs of
    underscores, strip underscores at both ends, cut at 50 characters. */
module Sanitize {

  const MaxLen: nat := 50

  /** The characters of the class `[<>:"/\\|?*]`, which are deleted. */
  predicate IsForbidden(c: char)
  {
    c == '<' || c == '>' || c == ':' || c == '"' || c == '/' || c == '\\' || c == '|' || c == '?' || c == '*'
  }

  /** Characters the pipeline is free to drop or rewrite. */
  predicate IsFiller(c: char)
  {
    IsForbidden(c) || c == ' ' || c == '_'
  }

  /** The characters a sanitized name must keep, in order: all but the
      forbidden ones, spaces and underscores. */
  function Essential(s: string): string
  {
    if s == [] then [] else (if IsFiller(s[0]) then [] else [s[0]]) + Essential(s[1..])
  }

  /** No forbidden character and no space. */
  predicate Clean(s: string)
  {
    forall k :: 0 <= k < |s| ==> !IsForbidden(s[k]) && s[k] != ' '
  }

  predicate NoDoubleUnderscore(s: string)
  {
    forall k :: 0 <= k < |s| - 1 ==> !(s[k] == '_' && s[k + 1] == '_')
  }

  lemma {:induction false} EssentialAppend(a: string, b: string)
    ensures Essential(a + b) == Essential(a) + Essential(b)
    decreases |a|
  {
    if a == [] {
      assert a + b == b;
    } else {
      assert (a + b)[1..] == a[1..] + b;
      EssentialAppend(a[1..], b);
    }
  }

  /** Essential of a prefix is a prefix of Essential. */
  lemma EssentialPrefix(s: string, n: nat)
    requires n <= |s|
    ensures Essential(s[..n]) <= Essential(s)
  {
    assert s == s[..n] + s[n..];
    EssentialAppend(s[..n], s[n..]);
  }

  /** `re.sub(r'[<>:"/\\|?*]', '', s)` */
  function DropForbidden(s: string): (r: string)
    ensures forall k :: 0 <= k < |r| ==> !IsForbidden(r[k])
    ensures Essential(r) == Essential(s)
  {
    if s == [] then []
    else if IsForbidden(s[0]) then DropForbidden(s[1..])
    else [s[0]] + DropForbidden(s[1..])
  }

  /** `s.replace(' ', '_')` */
  function SpacesToUnderscores(s: string): (r: string)
    ensures |r| == |s|
    ensures forall k :: 0 <= k < |s| ==> r[k] == if s[k] == ' ' then '_' else s[k]
    ensures Essential(r) == Essential(s)
  {
    if s == [] then [] else [if s[0] == ' ' then '_' else s[0]] + SpacesToUnderscores(s[1..])
  }

  /** `re.sub(r'_+', '_', s)`: each run of underscores becomes one. */
  function CollapseUnderscores(s: string): (r: string)
    ensures Clean(s) ==> Clean(r)
    ensures s != [] ==> r != [] && r[0] == s[0]
    ensures NoDoubleUnderscore(r)
    ensures Essential(r) == Essential(s)
    decreases |s|
  {
    if |s| < 2 then s
    else if s[0] == '_' && s[1] == '_' then CollapseUnderscores(s[1..])
    else [s[0]] + CollapseUnderscores(s[1..])
  }

  /** Deleting works character by character: a forbidden character is
      removed and any other is kept, wherever the input is split. */
  lemma {:induction false} DropForbiddenExactly(a: string, b: string, c: char)
    ensures DropForbidden(a + b) == DropForbidden(a) + DropForbidden(b)
    ensures DropForbidden([c]) == if IsForbidden(c) then [] else [c]
    decreases |a|
  {
    assert [c][1..] == [];
    if a == [] {
      assert a + b == b;
    } else {
      assert (a + b)[1..] == a[1..] + b;
      DropForbiddenExactly(a[1..], b, c);
    }
  }

  /** Cutting between two characters that are not both underscores commutes
      with collapsing: each maximal run is collapsed on its own. */
  lemma {:induction false} CollapseSplit(a: string, b: string)
    requires a == [] || b == [] || a[|a| - 1] != '_' || b[0] != '_'
    ensures CollapseUnderscores(a + b) == CollapseUnderscores(a) + CollapseUnderscores(b)
    decreases |a|
  {
    if a == [] {
      assert a + b == b;
    } else if b == [] {
      assert a + b == a;
    } else if |a| == 1 {
      assert (a + b)[1..] == b;
    } else {
      assert (a + b)[1..] == a[1..] + b;
      CollapseSplit(a[1..], b);
    }
  }

  /** A run of one or more underscores becomes exactly one. */
  lemma {:induction false} CollapseRun(n: nat)
    requires n >= 1
    ensures CollapseUnderscores(seq(n, _ => '_')) == "_"
  {
    if n >= 2 {
      assert seq(n, _ => '_')[1..] == seq(n - 1, _ => '_');
      CollapseRun(n - 1);
    }
  }

  /** Everything outside the runs is kept: a string with no two adjacent
      underscores is unchanged. */
  lemma {:induction false} CollapseKeeps(s: string)
    requires NoDoubleUnderscore(s)
    ensures CollapseUnderscores(s) == s
    decreases |s|
  {
    if |s| >= 2 {
      CollapseKeeps(s[1..]);
      assert [s[0]] + s[1..] == s;
    }
  }

  /** The leading-underscore half of `s.strip('_')`. */
  function StripLeading(s: string): (r: string)
    ensures |r| <= |s| && r == s[|s| - |r|..]
    ensures r == [] || r[0] != '_'
    ensures Essential(r) == Essential(s)
  {
    if s != [] && s[0] == '_' then StripLeading(s[1..]) else s
  }

  /** The trailing-underscore half of `s.strip('_')`. */
  function StripTrailing(s: string): (r: string)
    ensures r <= s
    ensures r == [] || r[|r| - 1] != '_'
    ensures Essential(r) == Essential(s)
  {
    if s != [] && s[|s| - 1] == '_' then
      EssentialAppend(s[..|s| - 1], [s[|s| - 1]]);
      assert s == s[..|s| - 1] + [s[|s| - 1]];
      StripTrailing(s[..|s| - 1])
    else s
  }

  /** The name before the 50-character cut. */
  function Uncut(s: string): string
  {
    StripTrailing(StripLeading(CollapseUnderscores(SpacesToUnderscores(DropForbidden(s)))))
  }

  /** The 50-character cut `name[:50]`. */
  function Cut(u: string): (r: string)
    ensures |r| <= MaxLen && r <= u
    ensures |u| <= MaxLen ==> r == u
  {
    if |u| > MaxLen then u[..MaxLen] else u
  }

  /** `sanitize_filename(s)` */
  function SanitizeFilename(s: string): string
  {
    Cut(Uncut(s))
  }

  /** What `sanitize_filename` guarantees of every output: at most 50
      characters, no leading underscore, and a trailing underscore only when
      the name was cut at 50 characters. */
  lemma SanitizeFilenameEnds(s: string)
    ensures |SanitizeFilename(s)| <= MaxLen
    ensures SanitizeFilename(s) == [] || SanitizeFilename(s)[0] != '_'
    ensures SanitizeFilename(s) != [] && SanitizeFilename(s)[|SanitizeFilename(s)| - 1] == '_' ==>
              |SanitizeFilename(s)| == MaxLen
  {
    UncutFacts(s);
    CutFacts(Uncut(s));
  }

  lemma CleanAfterRewrites(s: string)
    ensures Clean(SpacesToUnderscores(DropForbidden(s)))
  {
    var d := DropForbidden(s);
    var sp := SpacesToUnderscores(d);
    forall k | 0 <= k < |sp|
      ensures !IsForbidden(sp[k]) && sp[k] != ' '
    {
      assert !IsForbidden(d[k]);
    }
  }

  /** A slice of a clean name is clean. */
  lemma CleanSlice(s: string, i: nat, j: nat)
    requires Clean(s) && i <= j <= |s|
    ensures Clean(s[i..j])
  {
    forall k | 0 <= k < j - i
      ensures !IsForbidden(s[i..j][k]) && s[i..j][k] != ' '
    {
      assert s[i..j][k] == s[i + k];
    }
  }

  /** A slice of a name without `__` has none either. */
  lemma NoDoubleSlice(s: string, i: nat, j: nat)
    requires NoDoubleUnderscore(s) && i <= j <= |s|
    ensures NoDoubleUnderscore(s[i..j])
  {
    forall k | 0 <= k < j - i - 1
      ensures !(s[i..j][k] == '_' && s[i..j][k + 1] == '_')
    {
      assert s[i..j][k] == s[i + k] && s[i..j][k + 1] == s[i + k + 1];
    }
  }

  /** Clean, free of `__`, and no underscore at either end. */
  predicate Tidy(u: string)
  {
    Clean(u) && NoDoubleUnderscore(u) && (u == [] || (u[0] != '_' && u[|u| - 1] != '_'))
  }

  /** Stripping leading underscores keeps a name clean and free of `__`. */
  lemma StripLeadingFacts(c: string)
    requires Clean(c) && NoDoubleUnderscore(c)
    ensures var l := StripLeading(c);
      Clean(l) && NoDoubleUnderscore(l) && (l == [] || l[0] != '_')
  {
    var l := StripLeading(c);
    CleanSlice(c, |c| - |l|, |c|);
    NoDoubleSlice(c, |c| - |l|, |c|);
  }

  /** Stripping trailing underscores as well leaves none at either end. */
  lemma StripTrailingFacts(l: string)
    requires Clean(l) && NoDoubleUnderscore(l) && (l == [] || l[0] != '_')
    ensures Tidy(StripTrailing(l))
  {
    var u := StripTrailing(l);
    assert u == l[..|u|];
    CleanSlice(l, 0, |u|);
    NoDoubleSlice(l, 0, |u|);
    if u != [] {
      assert u[0] == l[0];
    }
  }

  /** What holds of the name before the cut. */
  lemma UncutFacts(s: string)
    ensures Tidy(Uncut(s))
  {
    CleanAfterRewrites(s);
    var c := CollapseUnderscores(SpacesToUnderscores(DropForbidden(s)));
    StripLeadingFacts(c);
    StripTrailingFacts(StripLeading(c));
  }

  /** The cut keeps those facts, except that it may leave an underscore at
      the end of a 50-character name. */
  lemma CutFacts(u: string)
    requires Tidy(u)
    ensures var r := Cut(u);
      Clean(r) && NoDoubleUnderscore(r) && (r == [] || r[0] != '_') &&
      (r != [] && r[|r| - 1] == '_' ==> |r| == MaxLen)
  {
    var r := Cut(u);
    CleanSlice(u, 0, |r|);
    NoDoubleSlice(u, 0, |r|);
    if r != [] {
      assert r[0] == u[0];
    }
  }

  /** No output character is one of `<>:"/\\|?*` or a space. */
  lemma SanitizeFilenameChars(s: string)
    ensures Clean(SanitizeFilename(s))
  {
    UncutFacts(s);
    CutFacts(Uncut(s));
  }

  /** No output holds two underscores in a row. */
  lemma SanitizeFilenameSingleUnderscores(s: string)
    ensures NoDoubleUnderscore(SanitizeFilename(s))
  {
    UncutFacts(s);
    CutFacts(Uncut(s));
  }

  /** Nothing but fillers is lost: the kept characters of the output are a
      prefix of those of the input, and all of them unless the output was cut
      at 50 characters. */
  lemma SanitizeFilenameKeeps(s: string)
    ensures Essential(SanitizeFilename(s)) <= Essential(s)
    ensures |SanitizeFilename(s)| < MaxLen ==> Essential(SanitizeFilename(s)) == Essential(s)
  {
    var u := Uncut(s);
    assert Essential(u) == Essential(s);
    if |u| > MaxLen {
      EssentialPrefix(u, MaxLen);
    }
  }
}

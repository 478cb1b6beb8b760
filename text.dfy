/** String operations the scrapers use, written out as Python defines them:
    `t in s`, `s.lower()` (ASCII letters only), `s.replace(old, new)`,
    `s.startswith`/`s.endswith`, `s[:n]`, `any(k in s for k in keys)`, and
    `s.split(sep)[-1]`, `s.split(sep)[-2]` and `s.split(sep)[0]`. */
module Text {
  import opened Wrappers

  /** `t in s`: `t` occurs in `s` as a contiguous piece. */
  predicate Contains(s: string, t: string)
    decreases |s|
  {
    t <= s || (s != [] && Contains(s[1..], t))
  }

  predicate EndsWith(s: string, t: string)
  {
    |t| <= |s| && s[|s| - |t|..] == t
  }

  /** The characters of `t` are all different from `c`. */
  predicate Avoids(t: string, c: char)
  {
    forall k :: 0 <= k < |t| ==> t[k] != c
  }

  /** A prefix of a text that avoids `c` avoids it too. */
  lemma AvoidsPrefix(p: string, t: string, c: char)
    requires p <= t && Avoids(t, c)
    ensures Avoids(p, c)
  {
    forall k | 0 <= k < |p|
      ensures p[k] != c
    {
      assert p[k] == t[k];
    }
  }

  /** A piece of a suffix is a piece of the whole. */
  lemma {:induction false} ContainsInSuffix(s: string, k: nat, t: string)
    requires k <= |s|
    requires Contains(s[k..], t)
    ensures Contains(s, t)
    decreases k
  {
    if k > 0 {
      assert s[1..][k - 1..] == s[k..];
      ContainsInSuffix(s[1..], k - 1, t);
    }
  }

  /** A prefix `u` none of whose characters can start `t` adds no occurrence of `t`. */
  lemma {:induction false} ContainsAfterAvoiding(u: string, v: string, t: string)
    requires t != [] && Avoids(u, t[0])
    ensures Contains(u + v, t) <==> Contains(v, t)
    decreases |u|
  {
    if u != [] {
      assert (u + v)[1..] == u[1..] + v;
      ContainsAfterAvoiding(u[1..], v, t);
    } else {
      assert u + v == v;
    }
  }

  function LowerChar(c: char): char
  {
    if 'A' <= c <= 'Z' then (c as int + 32) as char else c
  }

  /** `s.lower()` restricted to ASCII letters. */
  function Lower(s: string): (r: string)
    ensures |r| == |s|
    ensures forall i :: 0 <= i < |s| ==> r[i] == LowerChar(s[i])
  {
    if s == [] then [] else [LowerChar(s[0])] + Lower(s[1..])
  }

  /** `s.replace(pat, rep)`: every occurrence of `pat`, scanned left to right
      without overlap, becomes `rep`. */
  function ReplaceAll(s: string, pat: string, rep: string): string
    requires pat != []
    decreases |s|
  {
    if s == [] then []
    else if pat <= s then rep + ReplaceAll(s[|pat|..], pat, rep)
    else [s[0]] + ReplaceAll(s[1..], pat, rep)
  }

  /** A prefix none of whose characters can start `pat` is copied as it is. */
  lemma {:induction false} ReplaceAllAfterAvoiding(u: string, v: string, pat: string, rep: string)
    requires pat != [] && Avoids(u, pat[0])
    ensures ReplaceAll(u + v, pat, rep) == u + ReplaceAll(v, pat, rep)
    decreases |u|
  {
    if u == [] {
      assert u + v == v;
    } else {
      assert (u + v)[1..] == u[1..] + v;
      ReplaceAllAfterAvoiding(u[1..], v, pat, rep);
    }
  }

  /** An occurrence of `pat` at the front is replaced and the scan goes on
      after it. */
  lemma ReplaceAllLeading(v: string, pat: string, rep: string)
    requires pat != []
    ensures ReplaceAll(pat + v, pat, rep) == rep + ReplaceAll(v, pat, rep)
  {
    assert (pat + v)[|pat|..] == v;
  }

  /** A string without `pat` is returned unchanged. */
  lemma {:induction false} ReplaceAllAbsent(s: string, pat: string, rep: string)
    requires pat != []
    requires !Contains(s, pat)
    ensures ReplaceAll(s, pat, rep) == s
    decreases |s|
  {
    if s != [] {
      ReplaceAllAbsent(s[1..], pat, rep);
    }
  }

  /** A prefix `w` of the output that never uses the first character of the
      replacement was already a prefix of the input. */
  lemma {:induction false} ReplaceAllKeepsPrefix(s: string, pat: string, rep: string, w: string)
    requires pat != [] && rep != []
    requires w <= ReplaceAll(s, pat, rep)
    ensures w <= s || !Avoids(w, rep[0])
    decreases |s|
  {
    if s != [] && w != [] {
      if pat <= s {
        assert w[0] == rep[0];
      } else {
        assert w[1..] <= ReplaceAll(s[1..], pat, rep);
        ReplaceAllKeepsPrefix(s[1..], pat, rep, w[1..]);
        if !Avoids(w[1..], rep[0]) {
          var k :| 0 <= k < |w[1..]| && w[1..][k] == rep[0];
          assert w[k + 1] == rep[0];
        }
      }
    }
  }

  /** Replacing with a single character `c` that `t` never uses creates no
      occurrence of `t`. */
  lemma {:induction false} ReplaceByCharAddsNothing(s: string, pat: string, c: char, t: string)
    requires pat != [] && t != [] && Avoids(t, c)
    requires Contains(ReplaceAll(s, pat, [c]), t)
    ensures Contains(s, t)
    decreases |s|
  {
    var r := ReplaceAll(s, pat, [c]);
    if t <= r {
      ReplaceAllKeepsPrefix(s, pat, [c], t);
    } else if pat <= s {
      assert r[1..] == ReplaceAll(s[|pat|..], pat, [c]);
      ReplaceByCharAddsNothing(s[|pat|..], pat, c, t);
      ContainsInSuffix(s, |pat|, t);
    } else {
      assert r[1..] == ReplaceAll(s[1..], pat, [c]);
      ReplaceByCharAddsNothing(s[1..], pat, c, t);
      ContainsInSuffix(s, 1, t);
    }
  }

  /** `s.split(sep)[-1]`: the text after the last `sep`, or all of `s`. */
  function AfterLast(s: string, sep: char): (r: string)
    ensures EndsWith(s, r) && Avoids(r, sep)
    ensures |r| < |s| ==> s[|s| - |r| - 1] == sep
    decreases |s|
  {
    if s == [] then []
    else if s[|s| - 1] == sep then []
    else AfterLast(s[..|s| - 1], sep) + [s[|s| - 1]]
  }

  /** Whatever precedes the last separator does not matter. */
  lemma {:induction false} AfterLastAfterSep(p: string, c: string, sep: char)
    ensures AfterLast(p + [sep] + c, sep) == AfterLast(c, sep)
    decreases |c|
  {
    var w := p + [sep] + c;
    if c == [] {
      assert w[|w| - 1] == sep;
    } else {
      var n := |c| - 1;
      assert w[|w| - 1] == c[n];
      if c[n] != sep {
        assert w[..|w| - 1] == p + [sep] + c[..n];
        assert AfterLast(w, sep) == AfterLast(w[..|w| - 1], sep) + [c[n]];
        assert AfterLast(c, sep) == AfterLast(c[..n], sep) + [c[n]];
        AfterLastAfterSep(p, c[..n], sep);
      }
    }
  }

  /** A separator-led piece decides what follows the last separator. */
  lemma AfterLastOfSepLed(p: string, t: string, sep: char)
    requires t != [] && t[0] == sep
    ensures AfterLast(p + t, sep) == AfterLast(t, sep)
  {
    assert p + t == p + [sep] + t[1..];
    assert t == [] + [sep] + t[1..];
    AfterLastAfterSep(p, t[1..], sep);
    AfterLastAfterSep([], t[1..], sep);
  }

  /** `s.split(sep)[0]`: the text before the first `sep`, or all of `s`. */
  function BeforeFirst(s: string, sep: char): (r: string)
    ensures r <= s && Avoids(r, sep)
    ensures |r| < |s| ==> s[|r|] == sep
  {
    if s == [] || s[0] == sep then [] else [s[0]] + BeforeFirst(s[1..], sep)
  }

  /** `sep in s` for one character. */
  predicate HasChar(s: string, c: char)
  {
    exists k :: 0 <= k < |s| && s[k] == c
  }

  /** Decimal digits of `n`, as `str(n)`. */
  function NatToString(n: nat): (r: string)
    ensures |r| >= 1
    ensures n < 10 ==> |r| == 1
    ensures 10 <= n < 100 ==> |r| == 2
    ensures forall k :: 0 <= k < |r| ==> '0' <= r[k] <= '9'
    decreases n
  {
    if n < 10 then [(48 + n) as char] else NatToString(n / 10) + [(48 + n % 10) as char]
  }

  /** `f"{n:02d}"`: at least two digits, padded with a leading zero. */
  function Pad2(n: nat): (r: string)
    ensures |r| >= 2
    ensures n < 10 ==> r == ['0', (48 + n) as char]
    ensures n >= 10 ==> r == NatToString(n)
  {
    if n < 10 then "0" + NatToString(n) else NatToString(n)
  }

  /** `s[:n]` */
  function Take(s: string, n: nat): (r: string)
    ensures |r| <= n && r <= s
    ensures |s| <= n ==> r == s
  {
    if |s| > n then s[..n] else s
  }

  /** Some key of `keys` occurs in `s`. */
  predicate ContainsAny(s: string, keys: seq<string>)
  {
    exists k :: 0 <= k < |keys| && Contains(s, keys[k])
  }

  /** A piece of `s` is a piece of anything `s` starts. */
  lemma {:induction false} ContainsExtend(s: string, u: string, t: string)
    requires Contains(s, t)
    ensures Contains(s + u, t)
    decreases |s|
  {
    if !(t <= s) {
      assert (s + u)[1..] == s[1..] + u;
      ContainsExtend(s[1..], u, t);
    } else {
      assert (s + u)[..|t|] == s[..|t|];
    }
  }

  /** `s.split(sep)[-2]`: the piece between the last two separators (or
      before the only one); `None` when `s` has no separator, where Python
      raises `IndexError`. */
  function PieceBeforeLast(s: string, sep: char): (r: Option<string>)
    ensures r.None? <==> Avoids(s, sep)
    decreases |s|
  {
    if s == [] then None
    else if s[|s| - 1] == sep then Some(AfterLast(s[..|s| - 1], sep))
    else PieceBeforeLast(s[..|s| - 1], sep)
  }

  /** With a separator-free tail `c`, the piece before the last separator
      of `p + [sep] + c` is the last piece of `p`. */
  lemma {:induction false} PieceBeforeLastOf(p: string, c: string, sep: char)
    requires Avoids(c, sep)
    ensures PieceBeforeLast(p + [sep] + c, sep) == Some(AfterLast(p, sep))
    decreases |c|
  {
    var w := p + [sep] + c;
    if c == [] {
      assert w[|w| - 1] == sep;
      assert w[..|w| - 1] == p;
      assert PieceBeforeLast(w, sep) == Some(AfterLast(w[..|w| - 1], sep));
    } else {
      var n := |c| - 1;
      assert w[|w| - 1] == c[n] != sep;
      assert w[..|w| - 1] == p + [sep] + c[..n];
      assert PieceBeforeLast(w, sep) == PieceBeforeLast(w[..|w| - 1], sep);
      AvoidsPrefix(c[..n], c, sep);
      PieceBeforeLastOf(p, c[..n], sep);
    }
  }

  /** An occurrence has a position. */
  lemma {:induction false} ContainsAt(s: string, t: string)
    requires Contains(s, t)
    ensures exists k :: 0 <= k <= |s| && t <= s[k..]
    decreases |s|
  {
    if !(t <= s) {
      ContainsAt(s[1..], t);
      var k :| 0 <= k <= |s[1..]| && t <= s[1..][k..];
      assert s[1..][k..] == s[k + 1..];
    } else {
      assert s[0..] == s;
    }
  }

  /** A piece of a piece is a piece. */
  lemma ContainsTrans(s: string, t: string, u: string)
    requires Contains(s, t) && Contains(t, u)
    ensures Contains(s, u)
  {
    ContainsAt(s, t);
    ContainsAt(t, u);
    var k :| 0 <= k <= |s| && t <= s[k..];
    var j :| 0 <= j <= |t| && u <= t[j..];
    assert u <= s[k + j..] by {
      assert forall m :: 0 <= m < |u| ==> u[m] == t[j + m] == s[k + j + m];
    }
    assert Contains(s[k + j..], u);
    ContainsInSuffix(s, k + j, u);
  }

  /** Lower-casing keeps every occurrence, lower-cased. */
  lemma ContainsLower(s: string, t: string)
    requires Contains(s, t)
    ensures Contains(Lower(s), Lower(t))
  {
    ContainsAt(s, t);
    var k :| 0 <= k <= |s| && t <= s[k..];
    assert Lower(t) <= Lower(s)[k..];
    ContainsInSuffix(Lower(s), k, Lower(t));
  }
}

/** The few Python `str` and `pathlib` operations the script relies on, on
    `string` (a `seq<char>`), with the properties the rest of the model uses. */
module PyStrings {

  // ---------------------------------------------------------------------------
  // str.endswith
  // ---------------------------------------------------------------------------

  /** `s.endswith(suffix)` */
  predicate EndsWith(s: string, suffix: string) {
    |suffix| <= |s| && s[|s| - |suffix|..] == suffix
  }

  /** A suffix of a name stays a suffix once something is put in front of it. */
  lemma EndsWithPrefixed(prefix: string, s: string, suffix: string)
    requires EndsWith(s, suffix)
    ensures EndsWith(prefix + s, suffix)
  {
    var t := prefix + s;
    assert t[|t| - |suffix|..] == s[|s| - |suffix|..];
  }

  // ---------------------------------------------------------------------------
  // the `in` operator on strings
  // ---------------------------------------------------------------------------

  /** `p` occurs in `s` at index `i`. */
  ghost predicate OccursAt(s: string, p: string, i: int) {
    0 <= i && i + |p| <= |s| && s[i..i + |p|] == p
  }

  /** `p in s`, scanning from the left. */
  predicate Contains(s: string, p: string)
    decreases |s|
  {
    |p| <= |s| && (s[..|p|] == p || Contains(s[1..], p))
  }

  /** The scan agrees with the positional definition: `p in s` exactly when
      `p` occurs in `s` at some index. */
  lemma {:induction false} ContainsIffOccurs(s: string, p: string)
    ensures Contains(s, p) <==> exists i :: OccursAt(s, p, i)
    decreases |s|
  {
    if Contains(s, p) {
      if s[..|p|] == p {
        assert OccursAt(s, p, 0);
      } else {
        ContainsIffOccurs(s[1..], p);
        var i :| OccursAt(s[1..], p, i);
        assert s[i + 1..i + 1 + |p|] == s[1..][i..i + |p|];
        assert OccursAt(s, p, i + 1);
      }
    }
    if exists i :: OccursAt(s, p, i) {
      var i :| OccursAt(s, p, i);
      if i > 0 && s[..|p|] != p {
        assert s[1..][i - 1..i - 1 + |p|] == s[i..i + |p|];
        assert OccursAt(s[1..], p, i - 1);
        ContainsIffOccurs(s[1..], p);
      }
    }
  }

  /** A pattern cannot occur where its first character does not. */
  lemma AbsentFirstChar(s: string, p: string)
    requires |p| > 0
    requires forall i :: 0 <= i && i + |p| <= |s| ==> s[i] != p[0]
    ensures !Contains(s, p)
  {
    ContainsIffOccurs(s, p);
    forall i | 0 <= i && i + |p| <= |s| ensures !OccursAt(s, p, i) {
      assert s[i..i + |p|][0] == s[i];
    }
  }

  /** Whatever occurs in a suffix of `s` occurs in `s`. */
  lemma {:induction false} ContainsInSuffix(s: string, k: nat, p: string)
    requires k <= |s|
    requires Contains(s[k..], p)
    ensures Contains(s, p)
    decreases k
  {
    if k > 0 {
      assert s[1..][k - 1..] == s[k..];
      ContainsInSuffix(s[1..], k - 1, p);
    }
  }

  // ---------------------------------------------------------------------------
  // str.replace
  // ---------------------------------------------------------------------------

  /** `s.replace(pat, rep)`: scanning from the left, every occurrence of `pat`
      is replaced by `rep` and the scan resumes after it, so occurrences do not
      overlap; an empty `pat` matches before every character and at the end. */
  function Replace(s: string, pat: string, rep: string): string
    decreases |s|
  {
    if |pat| == 0 then
      if s == [] then rep else rep + [s[0]] + Replace(s[1..], pat, rep)
    else if |s| < |pat| then s
    else if s[..|pat|] == pat then rep + Replace(s[|pat|..], pat, rep)
    else [s[0]] + Replace(s[1..], pat, rep)
  }

  /** A string without the pattern comes back unchanged. */
  lemma {:induction false} ReplaceAbsent(s: string, pat: string, rep: string)
    requires !Contains(s, pat)
    ensures Replace(s, pat, rep) == s
    decreases |s|
  {
    if |s| >= |pat| {
      ReplaceAbsent(s[1..], pat, rep);
      assert [s[0]] + s[1..] == s;
    }
  }

  /** Replacing never shortens a string when the replacement is at least as
      long as the (non-empty) pattern. */
  lemma {:induction false} ReplaceNotShorter(s: string, pat: string, rep: string)
    requires |pat| > 0 && |rep| >= |pat|
    ensures |Replace(s, pat, rep)| >= |s|
    decreases |s|
  {
    if |s| >= |pat| {
      if s[..|pat|] == pat {
        ReplaceNotShorter(s[|pat|..], pat, rep);
      } else {
        ReplaceNotShorter(s[1..], pat, rep);
      }
    }
  }

  /** Replacing never lengthens a string when the replacement is at most as
      long as the (non-empty) pattern. */
  lemma {:induction false} ReplaceNotLonger(s: string, pat: string, rep: string)
    requires |pat| > 0 && |rep| <= |pat|
    ensures |Replace(s, pat, rep)| <= |s|
    decreases |s|
  {
    if |s| >= |pat| {
      if s[..|pat|] == pat {
        ReplaceNotLonger(s[|pat|..], pat, rep);
      } else {
        ReplaceNotLonger(s[1..], pat, rep);
      }
    }
  }

  /** A non-matching first character is copied and the scan moves on. */
  lemma ReplaceStep(s: string, pat: string, rep: string)
    requires 0 < |pat| <= |s| && s[..|pat|] != pat
    ensures Replace(s, pat, rep) == [s[0]] + Replace(s[1..], pat, rep)
  {
  }

  /** When the pattern is present and the replacement is longer, the result is
      strictly longer than the input, so it differs from it. */
  lemma {:induction false} ReplaceGrows(s: string, pat: string, rep: string)
    requires |pat| > 0 && |rep| > |pat| && Contains(s, pat)
    ensures |Replace(s, pat, rep)| > |s|
    decreases |s|
  {
    if s[..|pat|] == pat {
      ReplaceNotShorter(s[|pat|..], pat, rep);
    } else {
      ReplaceGrows(s[1..], pat, rep);
    }
  }

  /** When the pattern is present and the replacement is shorter, the result
      is strictly shorter than the input. */
  lemma {:induction false} ReplaceShrinks(s: string, pat: string, rep: string)
    requires |pat| > 0 && |rep| < |pat| && Contains(s, pat)
    ensures |Replace(s, pat, rep)| < |s|
    decreases |s|
  {
    if s[..|pat|] == pat {
      ReplaceNotLonger(s[|pat|..], pat, rep);
    } else {
      ReplaceShrinks(s[1..], pat, rep);
    }
  }

  /** Two replacements that differ at some index common to both give
      different results whenever the pattern is present. */
  lemma {:induction false} ReplaceDistinguishes(s: string, pat: string, rep1: string, rep2: string, k: nat)
    requires |pat| > 0 && Contains(s, pat)
    requires k < |rep1| && k < |rep2| && rep1[k] != rep2[k]
    ensures Replace(s, pat, rep1) != Replace(s, pat, rep2)
    decreases |s|
  {
    if s[..|pat|] == pat {
      assert Replace(s, pat, rep1)[k] == rep1[k];
      assert Replace(s, pat, rep2)[k] == rep2[k];
    } else {
      ReplaceDistinguishes(s[1..], pat, rep1, rep2, k);
      ReplaceStep(s, pat, rep1);
      ReplaceStep(s, pat, rep2);
      assert Replace(s, pat, rep1)[1..] == Replace(s[1..], pat, rep1);
      assert Replace(s, pat, rep2)[1..] == Replace(s[1..], pat, rep2);
    }
  }

  /** When the pattern already occurs inside the first `n` characters and
      the replacement differs from the pattern at some position, the first
      `n` characters of the result are not those of `s`. */
  lemma {:induction false} ReplaceRewritesPrefix(s: string, n: nat, pat: string, rep: string, t: nat)
    requires n <= |s| && |pat| > 0 && |rep| >= |pat|
    requires t < |pat| && rep[t] != pat[t]
    requires Contains(s[..n], pat)
    ensures |Replace(s, pat, rep)| >= n
    ensures Replace(s, pat, rep)[..n] != s[..n]
    decreases |s|
  {
    ReplaceNotShorter(s, pat, rep);
    assert s[..n][..|pat|] == s[..|pat|];
    if s[..|pat|] == pat {
      assert Replace(s, pat, rep)[t] == rep[t];
      assert s[..|pat|][t] == s[t];
      assert Replace(s, pat, rep)[..n][t] != s[..n][t];
    } else {
      assert s[..n][1..] == s[1..][..n - 1];
      ReplaceRewritesPrefix(s[1..], n - 1, pat, rep, t);
      ReplaceStep(s, pat, rep);
      assert Replace(s, pat, rep)[..n][1..] == Replace(s[1..], pat, rep)[..n - 1];
    }
  }

  /** Replacement goes on after the first occurrence: `a + pat + b`, with no
      occurrence starting inside `a`, becomes `a + rep` followed by `b` with
      every occurrence in it replaced in turn. */
  lemma {:induction false} ReplaceAfterMatch(a: string, pat: string, b: string, rep: string)
    requires |pat| > 0
    requires !Contains(a + pat[..|pat| - 1], pat)
    ensures Replace(a + pat + b, pat, rep) == a + rep + Replace(b, pat, rep)
    decreases |a|
  {
    var s := a + pat + b;
    if a == [] {
      assert s[..|pat|] == pat;
      assert s[|pat|..] == b;
    } else {
      var x := a + pat[..|pat| - 1];
      assert x[1..] == a[1..] + pat[..|pat| - 1];
      assert s[1..] == a[1..] + pat + b;
      assert [s[0]] + (a[1..] + rep + Replace(b, pat, rep)) == a + rep + Replace(b, pat, rep);
      assert s[..|pat|] == x[..|pat|];
      ReplaceAfterMatch(a[1..], pat, b, rep);
      ReplaceStep(s, pat, rep);
    }
  }

  /** Two occurrences are both replaced, each in place. */
  lemma ReplaceTwice(a: string, mid: string, b: string, pat: string, rep: string)
    requires |pat| > 0
    requires !Contains(a + pat[..|pat| - 1], pat) && !Contains(mid + pat[..|pat| - 1], pat)
    requires !Contains(b, pat)
    ensures Replace(a + pat + mid + pat + b, pat, rep) == a + rep + mid + rep + b
  {
    var tail := mid + pat + b;
    var s := a + pat + tail;
    var done := mid + rep + b;
    assert a + pat + mid + pat + b == s;
    assert a + rep + done == a + rep + mid + rep + b;
    assert Replace(tail, pat, rep) == done by {
      ReplaceSingle(mid, pat, b, rep);
    }
    assert Replace(s, pat, rep) == a + rep + Replace(tail, pat, rep) by {
      ReplaceAfterMatch(a, pat, tail, rep);
    }
  }

  /** A single occurrence of the pattern: `a + pat + b` where `pat` neither
      starts inside `a` nor occurs in `b` becomes `a + rep + b`; the
      replacement lands exactly where the pattern was. */
  lemma {:induction false} ReplaceSingle(a: string, pat: string, b: string, rep: string)
    requires |pat| > 0
    requires !Contains(a + pat[..|pat| - 1], pat)
    requires !Contains(b, pat)
    ensures Replace(a + pat + b, pat, rep) == a + rep + b
    decreases |a|
  {
    var s := a + pat + b;
    if a == [] {
      assert s[..|pat|] == pat;
      assert s[|pat|..] == b;
      ReplaceAbsent(b, pat, rep);
    } else {
      var x := a + pat[..|pat| - 1];
      assert x[1..] == a[1..] + pat[..|pat| - 1];
      assert s[1..] == a[1..] + pat + b;
      assert [s[0]] + (a[1..] + rep + b) == a + rep + b;
      assert s[..|pat|] == x[..|pat|];
      ReplaceSingle(a[1..], pat, b, rep);
      ReplaceStep(s, pat, rep);
    }
  }

  // ---------------------------------------------------------------------------
  // pathlib.Path(p).name
  // ---------------------------------------------------------------------------

  /** The final component of a path: the text after its last '/'. */
  function Basename(path: string): (name: string)
    ensures '/' !in name
    ensures EndsWith(path, name)
    ensures |name| < |path| ==> path[|path| - |name| - 1] == '/'
    decreases |path|
  {
    if path == [] || path[|path| - 1] == '/' then []
    else
      var init := path[..|path| - 1];
      var rest := Basename(init);
      assert init[|init| - |rest|..] == rest;
      assert path[|path| - |rest| - 1..] == init[|init| - |rest|..] + [path[|path| - 1]];
      assert |rest| < |init| ==> path[|path| - |rest| - 2] == init[|init| - |rest| - 1];
      rest + [path[|path| - 1]]
  }

  /** A tail without '/' stays part of the name: the name of `s + t` is the
      name of `s` followed by `t`. */
  lemma {:induction false} BasenameKeepsTail(s: string, t: string)
    requires '/' !in t
    ensures Basename(s + t) == Basename(s) + t
    decreases |t|
  {
    if t == [] {
      assert s + t == s;
    } else {
      var init, c := t[..|t| - 1], t[|t| - 1];
      assert init + [c] == t;
      assert c != '/' by { assert c == t[|t| - 1]; }
      assert '/' !in init by {
        forall i | 0 <= i < |init| ensures init[i] != '/' { assert init[i] == t[i]; }
      }
      assert s + t == (s + init) + [c];
      BasenameStep(s + init, c);
      BasenameKeepsTail(s, init);
    }
  }

  /** A last character other than '/' ends the name. */
  lemma BasenameStep(s: string, c: char)
    requires c != '/'
    ensures Basename(s + [c]) == Basename(s) + [c]
  {
    assert (s + [c])[..|s|] == s;
  }

  /** The name of `root + "/" + file` is `file` when `file` has no '/'. */
  lemma BasenameOfJoin(root: string, file: string)
    requires '/' !in file
    ensures Basename(root + "/" + file) == file
  {
    BasenameKeepsTail(root + "/", file);
  }

  /** A piece of the last component without '/' is in the name. */
  lemma MarkerInName(a: string, m: string, b: string)
    requires |m| > 0 && '/' !in m && '/' !in b
    ensures Contains(Basename(a + m + b), m)
  {
    var tail := m + b;
    assert tail[..|m|] == m;
    assert '/' !in tail;
    assert a + m + b == a + tail;
    BasenameKeepsTail(a, tail);
    var name := Basename(a) + tail;
    assert name[|Basename(a)|..] == tail;
    ContainsInSuffix(name, |Basename(a)|, m);
  }

  /** What occurs in the name of a path occurs in the path. */
  lemma ContainsFromBasename(path: string, p: string)
    requires Contains(Basename(path), p)
    ensures Contains(path, p)
  {
    var name := Basename(path);
    ContainsInSuffix(path, |path| - |name|, p);
  }

  // ---------------------------------------------------------------------------
  // str(n) for a natural number
  // ---------------------------------------------------------------------------

  predicate IsDigit(c: char) {
    '0' <= c <= '9'
  }

  predicate AllDigits(s: string) {
    forall i :: 0 <= i < |s| ==> IsDigit(s[i])
  }

  function DigitChar(d: nat): (c: char)
    requires d < 10
  {
    (48 + d) as char
  }

  function DigitValue(c: char): nat
    requires IsDigit(c)
  {
    c as int - 48
  }

  /** `str(n)`: the decimal digits of `n`, most significant first. */
  function NatToDecimal(n: nat): (s: string)
    ensures |s| > 0 && AllDigits(s)
    ensures |s| > 1 ==> s[0] != '0'
    decreases n
  {
    if n < 10 then [DigitChar(n)] else NatToDecimal(n / 10) + [DigitChar(n % 10)]
  }

  /** The number a string of decimal digits denotes (`int(s)`). */
  function DecimalValue(s: string): nat
    requires AllDigits(s)
    decreases |s|
  {
    if s == [] then 0 else DecimalValue(s[..|s| - 1]) * 10 + DigitValue(s[|s| - 1])
  }

  /** Reading back the decimal digits gives the number: `int(str(n)) == n`. */
  lemma {:induction false} DecimalRoundTrip(n: nat)
    ensures DecimalValue(NatToDecimal(n)) == n
    decreases n
  {
    if n >= 10 {
      var s := NatToDecimal(n);
      assert s[..|s| - 1] == NatToDecimal(n / 10);
      DecimalRoundTrip(n / 10);
    }
  }

  /** Different numbers print differently. */
  lemma DecimalInjective(m: nat, n: nat)
    requires m != n
    ensures NatToDecimal(m) != NatToDecimal(n)
  {
    DecimalRoundTrip(m);
    DecimalRoundTrip(n);
  }
}

/**
 * The PHP string and path builtins the module relies on, on byte-free strings:
 * `str_replace` with one needle, `basename` and the `filename` entry of `pathinfo`
 * (POSIX separators only).
 */
module PhpStrings {

  /** `pat` occurs in `s` starting at index `i`. */
  predicate OccursAt(s: string, pat: string, i: nat)
  {
    i + |pat| <= |s| && s[i..i + |pat|] == pat
  }

  /**
   * `str_replace(search, replace, subject)`: scans left to right and replaces every
   * non-overlapping occurrence of `search`; an empty needle leaves the subject alone.
   */
  function StrReplace(subject: string, search: string, replace: string): string
    decreases |subject|
  {
    if |search| == 0 || |subject| < |search| then subject
    else if subject[..|search|] == search then replace + StrReplace(subject[|search|..], search, replace)
    else [subject[0]] + StrReplace(subject[1..], search, replace)
  }

  /** Occurrences in the tail of `s` are occurrences in `s`, one position further on. */
  lemma OccursAtTail(s: string, pat: string, i: nat)
    requires |s| > 0
    ensures OccursAt(s[1..], pat, i) == OccursAt(s, pat, i + 1)
  {
    if i + |pat| <= |s| - 1 {
      assert s[1..][i..i + |pat|] == s[i + 1..i + 1 + |pat|];
    }
  }

  /** Where the needle does not start at the front, the first character is kept as it is. */
  lemma StrReplaceKeepsFirst(s: string, search: string, replace: string)
    requires |search| > 0 && |s| > 0 && !OccursAt(s, search, 0)
    ensures StrReplace(s, search, replace) == [s[0]] + StrReplace(s[1..], search, replace)
  {
  }

  /** Without an occurrence of the needle the subject comes back unchanged. */
  lemma {:induction false} StrReplaceNoMatch(subject: string, search: string, replace: string)
    requires forall i: nat :: !OccursAt(subject, search, i)
    ensures StrReplace(subject, search, replace) == subject
    decreases |subject|
  {
    if |search| > 0 && |subject| >= |search| {
      var rest := subject[1..];
      forall i: nat
        ensures !OccursAt(rest, search, i)
      {
        OccursAtTail(subject, search, i);
      }
      StrReplaceKeepsFirst(subject, search, replace);
      StrReplaceNoMatch(rest, search, replace);
      assert subject == [subject[0]] + rest;
    }
  }

  /** A needle at index `k` is replaced and the scan resumes right after it. */
  lemma StrReplaceAt(s: string, search: string, replace: string, k: nat)
    requires |search| > 0 && OccursAt(s, search, k)
    ensures StrReplace(s[k..], search, replace) == replace + StrReplace(s[k + |search|..], search, replace)
  {
    var m := s[k..];
    assert m[..|search|] == s[k..k + |search|];
    assert m[|search|..] == s[k + |search|..];
  }

  /** The first character followed by the next `k - 1` is the first `k`. */
  lemma ConsPrefix(s: string, k: nat, t: string)
    requires 0 < k <= |s|
    ensures s[1..][k - 1..] == s[k..]
    ensures [s[0]] + (s[1..][..k - 1] + t) == s[..k] + t
  {
    assert s[..k] == [s[0]] + s[1..][..k - 1];
    assert [s[0]] + (s[1..][..k - 1] + t) == ([s[0]] + s[1..][..k - 1]) + t;
  }

  /** One step of StrReplaceCopiesPrefix: a kept first character joins the copied prefix. */
  lemma StrReplaceCopiesPrefixStep(s: string, search: string, replace: string, k: nat)
    requires |search| > 0 && 0 < k <= |s| && !OccursAt(s, search, 0)
    requires StrReplace(s[1..], search, replace) == s[1..][..k - 1] + StrReplace(s[1..][k - 1..], search, replace)
    ensures StrReplace(s, search, replace) == s[..k] + StrReplace(s[k..], search, replace)
  {
    StrReplaceKeepsFirst(s, search, replace);
    ConsPrefix(s, k, StrReplace(s[k..], search, replace));
  }

  /** The first `k` characters, where no occurrence of the needle starts, are copied unchanged. */
  lemma {:induction false} StrReplaceCopiesPrefix(s: string, search: string, replace: string, k: nat)
    requires |search| > 0 && k <= |s|
    requires forall i: nat :: i < k ==> !OccursAt(s, search, i)
    ensures StrReplace(s, search, replace) == s[..k] + StrReplace(s[k..], search, replace)
    decreases k
  {
    if k > 0 {
      forall i: nat | i < k - 1
        ensures !OccursAt(s[1..], search, i)
      {
        OccursAtTail(s, search, i);
      }
      StrReplaceCopiesPrefix(s[1..], search, replace, k - 1);
      StrReplaceCopiesPrefixStep(s, search, replace, k);
    } else {
      assert s[..k] == [] && s[k..] == s;
    }
  }

  /**
   * The first occurrence, at `k`, is replaced and the scan resumes right after it;
   * together with StrReplaceNoMatch this pins StrReplace down completely.
   */
  lemma StrReplaceFirst(s: string, search: string, replace: string, k: nat)
    requires |search| > 0 && OccursAt(s, search, k)
    requires forall i: nat :: i < k ==> !OccursAt(s, search, i)
    ensures StrReplace(s, search, replace) == s[..k] + replace + StrReplace(s[k + |search|..], search, replace)
  {
    StrReplaceCopiesPrefix(s, search, replace, k);
    StrReplaceAt(s, search, replace, k);
  }

  /** A needle that occurs only as the suffix is swapped for the replacement. */
  lemma StrReplaceSuffixOnly(a: string, search: string, replace: string)
    requires |search| > 0
    requires forall i: nat :: OccursAt(a + search, search, i) ==> i == |a|
    ensures StrReplace(a + search, search, replace) == a + replace
  {
    var s := a + search;
    assert OccursAt(s, search, |a|);
    StrReplaceFirst(s, search, replace, |a|);
    assert s[..|a|] == a;
    assert s[|a| + |search|..] == [];
  }

  /** Index of the last `c` in `s`, or -1 (PHP's `strrpos`/`memrchr` idiom). */
  function LastIndexOf(s: string, c: char): (r: int)
    ensures -1 <= r < |s|
    ensures r == -1 <==> c !in s
    ensures r != -1 ==> 0 <= r < |s| && s[r] == c && c !in s[r + 1..]
    decreases |s|
  {
    if |s| == 0 then -1
    else if s[|s| - 1] == c then |s| - 1
    else
      assert s == s[..|s| - 1] + [s[|s| - 1]];
      LastIndexOf(s[..|s| - 1], c)
  }

  /** `rtrim($p, '/')` as `basename` does before it looks for the last separator. */
  function StripTrailingSlashes(p: string): (r: string)
    ensures |r| <= |p| && r == p[..|r|]
    ensures |r| == 0 || r[|r| - 1] != '/'
    ensures forall i :: |r| <= i < |p| ==> p[i] == '/'
    decreases |p|
  {
    if |p| > 0 && p[|p| - 1] == '/' then StripTrailingSlashes(p[..|p| - 1]) else p
  }

  /** PHP `basename($p)`: the last path component, trailing separators ignored. */
  function Basename(p: string): (r: string)
    ensures '/' !in r
  {
    var q := StripTrailingSlashes(p);
    q[LastIndexOf(q, '/') + 1..]
  }

  /** PHP `pathinfo($p)['filename']`: the basename up to, not including, its last dot. */
  function PathinfoFilename(p: string): (r: string)
    ensures '/' !in r
    ensures |r| <= |Basename(p)| && r == Basename(p)[..|r|]
  {
    var b := Basename(p);
    var k := LastIndexOf(b, '.');
    if k == -1 then b else b[..k]
  }

  /** Where `pathinfo` cuts: at the basename's last dot, or nowhere when it has none. */
  lemma PathinfoFilenameCut(p: string)
    ensures '.' !in Basename(p) ==> PathinfoFilename(p) == Basename(p)
    ensures '.' in Basename(p) ==>
      var n := |PathinfoFilename(p)|;
      n < |Basename(p)| && Basename(p)[n] == '.' && '.' !in Basename(p)[n + 1..]
  {
  }

  /** Characters appended after the last `c` do not move it when they are not `c`. */
  lemma {:induction false} LastIndexOfAppend(a: string, e: string, c: char)
    requires c !in e
    ensures LastIndexOf(a + e, c) == LastIndexOf(a, c)
    decreases |e|
  {
    if |e| > 0 {
      var s := a + e;
      assert s[|s| - 1] == e[|e| - 1];
      assert s[..|s| - 1] == a + e[..|e| - 1];
      LastIndexOfAppend(a, e[..|e| - 1], c);
    } else {
      assert a + e == a;
    }
  }

  /** The basename of `dir + base` is `base` when `dir` ends in a separator. */
  lemma BasenameOfJoin(dir: string, base: string)
    requires dir == [] || dir[|dir| - 1] == '/'
    requires |base| > 0 && '/' !in base
    ensures Basename(dir + base) == base
  {
    var p := dir + base;
    assert p[|p| - 1] == base[|base| - 1];
    assert StripTrailingSlashes(p) == p;
    var k := LastIndexOf(p, '/');
    forall j | |dir| <= j < |p|
      ensures p[j] != '/'
    {
      assert p[j] == base[j - |dir|];
    }
    if dir == [] {
      assert p == base;
    } else {
      assert p[|dir| - 1] == '/';
      forall j | k < j < |p|
        ensures p[j] != '/'
      {
        assert p[j] == p[k + 1..][j - k - 1];
      }
      assert k == |dir| - 1;
    }
    assert p[k + 1..] == base;
  }

  /** When the basename is `stem.ext` with a dot-free `ext`, the filename part is `stem`. */
  lemma PathinfoFilenameOfStem(p: string, stem: string, ext: string)
    requires Basename(p) == stem + "." + ext
    requires '.' !in ext
    ensures PathinfoFilename(p) == stem
  {
    var b := Basename(p);
    LastIndexOfAppend(stem + ".", ext, '.');
    assert LastIndexOf(stem + ".", '.') == |stem|;
    assert b[..|stem|] == stem;
  }
}

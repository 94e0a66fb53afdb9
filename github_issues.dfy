/** download_github_issues.py: the output folder slug derived from the product
    label, the ceil-stride split of the issue list into `issues_NN.md` files,
    and the small normalisations applied when an issue is rendered. */
module GithubIssues {
  import opened Common
  import Format
  import PdfMerge

  const ProductLabel: string := "Product:Aurea ACRM"
  const FilesWanted: nat := 3

  // ---------------------------------------------------------------- slug --

  predicate IsAlnum(c: char)
  {
    'A' <= c <= 'Z' || 'a' <= c <= 'z' || '0' <= c <= '9'
  }

  predicate IsSlugChar(c: char)
  {
    'a' <= c <= 'z' || '0' <= c <= '9' || c == '_'
  }

  predicate NoDoubleUnderscore(s: string)
  {
    forall i :: 0 <= i < |s| - 1 ==> !(s[i] == '_' && s[i + 1] == '_')
  }

  /** The letters and digits of s, in order. */
  function Alnums(s: string): string
  {
    if s == [] then [] else (if IsAlnum(s[0]) then [s[0]] else []) + Alnums(s[1..])
  }

  lemma {:induction false} AlnumsConcat(a: string, b: string)
    ensures Alnums(a + b) == Alnums(a) + Alnums(b)
  {
    if a == [] {
      assert a + b == b;
    } else {
      var h := if IsAlnum(a[0]) then [a[0]] else [];
      assert (a + b)[0] == a[0];
      assert (a + b)[1..] == a[1..] + b;
      calc {
        Alnums(a + b);
        h + Alnums(a[1..] + b);
        { AlnumsConcat(a[1..], b); }
        h + (Alnums(a[1..]) + Alnums(b));
        (h + Alnums(a[1..])) + Alnums(b);
      }
    }
  }

  lemma {:induction false} AlnumsNone(s: string)
    requires NoneAlnum(s)
    ensures Alnums(s) == []
  {
    if s != [] {
      AlnumsNone(s[1..]);
    }
  }

  /** `label.split(":")[-1]`: the longest suffix without a colon. */
  function LastField(s: string): (r: string)
    ensures |r| <= |s| && r == s[|s| - |r|..]
    ensures forall i :: 0 <= i < |r| ==> r[i] != ':'
    ensures |r| < |s| ==> s[|s| - |r| - 1] == ':'
  {
    if s == [] then []
    else if s[|s| - 1] == ':' then []
    else LastField(s[..|s| - 1]) + [s[|s| - 1]]
  }

  /** Drops the run of non-alphanumerics at the front of s. */
  function SkipRun(s: string): (r: string)
    ensures |r| <= |s| && r == s[|s| - |r|..]
    ensures r != [] ==> IsAlnum(r[0])
    ensures forall i :: 0 <= i < |s| - |r| ==> !IsAlnum(s[i])
  {
    s[SkipFrom(s, 0)..]
  }

  /** The first letter or digit of s at or after k, or |s| if none. */
  function SkipFrom(s: string, k: nat): (j: nat)
    requires k <= |s|
    requires forall i :: 0 <= i < k ==> !IsAlnum(s[i])
    ensures k <= j <= |s| && (j < |s| ==> IsAlnum(s[j]))
    ensures forall i :: 0 <= i < j ==> !IsAlnum(s[i])
    decreases |s| - k
  {
    if k < |s| && !IsAlnum(s[k]) then SkipFrom(s, k + 1) else k
  }

  lemma SkipRunAlnums(s: string)
    ensures Alnums(SkipRun(s)) == Alnums(s)
  {
    var r := SkipRun(s);
    assert s == s[..|s| - |r|] + r;
    AlnumsConcat(s[..|s| - |r|], r);
    AlnumsNone(s[..|s| - |r|]);
  }

  /** `re.sub(r"[^A-Za-z0-9]+", "_", s)`: every maximal run of characters
      other than ASCII letters and digits becomes one underscore. */
  function Collapse(s: string): string
    decreases |s|
  {
    if s == [] then []
    else if IsAlnum(s[0]) then [s[0]] + Collapse(s[1..])
    else "_" + Collapse(SkipRun(s[1..]))
  }

  /** The substitution leaves only letters, digits and single underscores, an
      underscore first exactly when the text starts with another character,
      and the letters and digits of the text in order. */
  lemma {:induction false} CollapseProperties(s: string)
    ensures var r := Collapse(s);
      (forall i :: 0 <= i < |r| ==> IsAlnum(r[i]) || r[i] == '_') &&
      NoDoubleUnderscore(r) &&
      (s != [] ==> r != [] && (r[0] == '_' <==> !IsAlnum(s[0]))) &&
      Alnums(r) == Alnums(s)
    decreases |s|
  {
    if s != [] {
      if IsAlnum(s[0]) {
        var rest := Collapse(s[1..]);
        CollapseProperties(s[1..]);
        assert ([s[0]] + rest)[1..] == rest;
      } else {
        var t := SkipRun(s[1..]);
        var rest := Collapse(t);
        CollapseProperties(t);
        SkipRunAlnums(s[1..]);
        assert ("_" + rest)[1..] == rest;
      }
    }
  }

  function StripLeading(s: string): (r: string)
    ensures |r| <= |s| && r == s[|s| - |r|..]
    ensures forall i :: 0 <= i < |s| - |r| ==> s[i] == '_'
    ensures r == [] || r[0] != '_'
  {
    if s != [] && s[0] == '_' then StripLeading(s[1..]) else s
  }

  function StripTrailing(s: string): (r: string)
    ensures |r| <= |s| && r == s[..|r|]
    ensures forall i :: |r| <= i < |s| ==> s[i] == '_'
    ensures r == [] || r[|r| - 1] != '_'
  {
    if s != [] && s[|s| - 1] == '_' then StripTrailing(s[..|s| - 1]) else s
  }

  /** `s.strip("_")`. */
  function Strip(s: string): string
  {
    StripTrailing(StripLeading(s))
  }

  /** Strip keeps a contiguous middle part and removes only underscores. */
  lemma StripIsMiddle(s: string) returns (a: nat, b: nat)
    ensures a <= b <= |s| && Strip(s) == s[a..b]
    ensures forall i :: 0 <= i < a ==> s[i] == '_'
    ensures forall i :: b <= i < |s| ==> s[i] == '_'
  {
    var l := StripLeading(s);
    a := |s| - |l|;
    var r := StripTrailing(l);
    b := a + |r|;
    assert r == s[a..b];
    assert forall i :: b <= i < |s| ==> s[i] == l[i - a];
  }

  /** `re.sub(...).strip("_").lower()` of the last label field. */
  function Slug(tag: string): string
  {
    Format.Lower(Strip(Collapse(LastField(tag))))
  }

  /** The output folder name, `f"{slug}_github_issues"`. */
  const DirSuffix: string := "_github_issues"

  function OutputDir(tag: string): string
  {
    Slug(tag) + DirSuffix
  }

  lemma {:induction false} LowerAlnums(s: string)
    ensures Alnums(Format.Lower(s)) == Format.Lower(Alnums(s))
  {
    if s != [] {
      assert Format.Lower(s)[1..] == Format.Lower(s[1..]);
      LowerAlnums(s[1..]);
      var h := if IsAlnum(s[0]) then [s[0]] else [];
      assert Format.Lower(h + Alnums(s[1..])) == Format.Lower(h) + Format.Lower(Alnums(s[1..]));
    }
  }

  /** Cutting only underscores off both ends keeps the letters and digits. */
  lemma MiddleAlnums(c: string, a: nat, b: nat)
    requires a <= b <= |c|
    requires forall i :: 0 <= i < a ==> c[i] == '_'
    requires forall i :: b <= i < |c| ==> c[i] == '_'
    ensures Alnums(c[a..b]) == Alnums(c)
  {
    DropTrailing(c, b);
    assert forall i :: 0 <= i < a ==> c[..b][i] == c[i];
    DropLeading(c[..b], a);
    assert c[..b][a..] == c[a..b];
  }

  lemma DropTrailing(c: string, b: nat)
    requires b <= |c|
    requires forall i :: b <= i < |c| ==> c[i] == '_'
    ensures Alnums(c) == Alnums(c[..b])
  {
    AlnumsSplit(c, b);
    assert c[b..] == c[b..|c|];
    UnderscoresOnly(c, b, |c|);
    assert Alnums(c[..b]) + [] == Alnums(c[..b]);
  }

  lemma DropLeading(c: string, a: nat)
    requires a <= |c|
    requires forall i :: 0 <= i < a ==> c[i] == '_'
    ensures Alnums(c) == Alnums(c[a..])
  {
    AlnumsSplit(c, a);
    assert c[..a] == c[0..a];
    UnderscoresOnly(c, 0, a);
    assert [] + Alnums(c[a..]) == Alnums(c[a..]);
  }

  lemma AlnumsSplit(c: string, k: nat)
    requires k <= |c|
    ensures Alnums(c) == Alnums(c[..k]) + Alnums(c[k..])
  {
    assert c == c[..k] + c[k..];
    AlnumsConcat(c[..k], c[k..]);
  }

  lemma UnderscoresOnly(c: string, a: nat, b: nat)
    requires a <= b <= |c|
    requires forall i :: a <= i < b ==> c[i] == '_'
    ensures Alnums(c[a..b]) == []
  {
    var x := c[a..b];
    assert forall i :: 0 <= i < |x| ==> x[i] == c[a + i];
    AlnumsNone(x);
  }

  /** Lower-casing turns letters, digits and underscores into slug characters
      and moves no underscore. */
  lemma LowerSlugChars(m: string)
    requires forall i :: 0 <= i < |m| ==> IsAlnum(m[i]) || m[i] == '_'
    ensures var l := Format.Lower(m);
      (forall i :: 0 <= i < |l| ==> IsSlugChar(l[i])) &&
      (forall i :: 0 <= i < |l| ==> (l[i] == '_' <==> m[i] == '_'))
  {
  }

  /** The slug holds only lower-case letters, digits and underscores, neither
      starts nor ends with an underscore, never has two underscores in a row,
      and keeps the letters and digits of the last label field, lower-cased. */
  lemma SlugProperties(tag: string)
    ensures var slug := Slug(tag);
      (forall i :: 0 <= i < |slug| ==> IsSlugChar(slug[i])) &&
      (slug == [] || (slug[0] != '_' && slug[|slug| - 1] != '_')) &&
      NoDoubleUnderscore(slug) &&
      Alnums(slug) == Format.Lower(Alnums(LastField(tag)))
  {
    var c := Collapse(LastField(tag));
    CollapseProperties(LastField(tag));
    var m := Strip(c);
    var a, b := StripIsMiddle(c);
    MiddleAlnums(c, a, b);
    MiddleNoDouble(c, a, b);
    LowerSlugChars(m);
    LowerAlnums(m);
    var l := Format.Lower(m);
    assert Slug(tag) == l;
    assert |l| == |m|;
  }

  lemma MiddleNoDouble(c: string, a: nat, b: nat)
    requires a <= b <= |c| && NoDoubleUnderscore(c)
    requires forall i :: 0 <= i < |c| ==> IsAlnum(c[i]) || c[i] == '_'
    ensures NoDoubleUnderscore(c[a..b])
    ensures forall i :: 0 <= i < b - a ==> IsAlnum(c[a..b][i]) || c[a..b][i] == '_'
  {
    assert forall i :: 0 <= i < b - a ==> c[a..b][i] == c[a + i];
  }

  predicate AllAlnum(s: string)
  {
    forall i :: 0 <= i < |s| ==> IsAlnum(s[i])
  }

  predicate NoneAlnum(s: string)
  {
    forall i :: 0 <= i < |s| ==> !IsAlnum(s[i])
  }

  /** Letters and digits pass through the substitution unchanged. */
  lemma {:induction false} CollapseKeepsAlnums(x: string, t: string)
    requires AllAlnum(x)
    ensures Collapse(x + t) == x + Collapse(t)
  {
    if x == [] {
      assert x + t == t;
    } else {
      var y := x[1..];
      assert AllAlnum(y) by {
        forall i | 0 <= i < |y| ensures IsAlnum(y[i]) {
          assert y[i] == x[i + 1];
        }
      }
      assert x + t == [x[0]] + (y + t);
      CollapseCons(x[0], y + t);
      CollapseKeepsAlnums(y, t);
      assert [x[0]] + (y + Collapse(t)) == x + Collapse(t);
    }
  }

  lemma CollapseCons(c: char, t: string)
    requires IsAlnum(c)
    ensures Collapse([c] + t) == [c] + Collapse(t)
  {
    assert ([c] + t)[0] == c && ([c] + t)[1..] == t;
  }

  lemma {:induction false} SkipRunOver(y: string, t: string)
    requires NoneAlnum(y)
    requires t == [] || IsAlnum(t[0])
    ensures SkipRun(y + t) == t
  {
    if y == [] {
      assert y + t == t;
    } else {
      assert (y + t)[0] == y[0];
      assert (y + t)[1..] == y[1..] + t;
      SkipRunOver(y[1..], t);
    }
  }

  /** A whole run of other characters, up to the next letter or digit or the
      end, becomes a single underscore. */
  lemma CollapseRun(y: string, t: string)
    requires y != [] && NoneAlnum(y)
    requires t == [] || IsAlnum(t[0])
    ensures Collapse(y + t) == "_" + Collapse(t)
  {
    assert (y + t)[0] == y[0];
    assert (y + t)[1..] == y[1..] + t;
    SkipRunOver(y[1..], t);
  }

  /** The configured label gives the slug `aurea_acrm`, so the folder is
      `aurea_acrm_github_issues`. */
  lemma SlugOfProductLabel()
    ensures Slug(ProductLabel) == "aurea_acrm"
  {
    SlugIsOfLastField();
    SlugOfField();
  }


  /** The output folder is the slug followed by `_github_issues`, so it holds
      only lower-case letters, digits and underscores. */
  lemma OutputDirSafe(tag: string)
    ensures var d := OutputDir(tag);
      d[..|Slug(tag)|] == Slug(tag) && d[|Slug(tag)|..] == DirSuffix &&
      forall i :: 0 <= i < |d| ==> IsSlugChar(d[i])
  {
    SlugProperties(tag);
    SafeWithSuffix(Slug(tag));
  }

  lemma SafeWithSuffix(slug: string)
    requires forall i :: 0 <= i < |slug| ==> IsSlugChar(slug[i])
    ensures forall i :: 0 <= i < |slug + DirSuffix| ==> IsSlugChar((slug + DirSuffix)[i])
  {
    assert forall k :: 0 <= k < |DirSuffix| ==> IsSlugChar(DirSuffix[k]);
  }

  lemma SlugIsOfLastField()
    ensures Slug(ProductLabel) == Format.Lower(Strip(Collapse("Aurea ACRM")))
  {
    LastFieldOfProductLabel();
  }

  lemma SlugOfField()
    ensures Format.Lower(Strip(Collapse("Aurea ACRM"))) == "aurea_acrm"
  {
    CollapseOfField();
    StripAndLowerOfField();
  }

  lemma StripAndLowerOfField()
    ensures Format.Lower(Strip("Aurea_ACRM")) == "aurea_acrm"
  {
    StripOfField();
    LowerOfField();
  }

  lemma StripOfField()
    ensures Strip("Aurea_ACRM") == "Aurea_ACRM"
  {
    var c := "Aurea_ACRM";
    assert c[0] == 'A' && c[|c| - 1] == 'M';
    assert StripLeading(c) == c;
  }

  lemma LowerOfField()
    ensures Format.Lower("Aurea_ACRM") == "aurea_acrm"
  {
    var l := Format.Lower("Aurea_ACRM");
    assert l[0] == 'a' && l[1] == 'u' && l[2] == 'r' && l[3] == 'e' && l[4] == 'a';
    assert l[5] == '_' && l[6] == 'a' && l[7] == 'c' && l[8] == 'r' && l[9] == 'm';
  }

  /** The last field is whatever follows the last colon. */
  lemma {:induction false} LastFieldAfterColon(x: string, y: string)
    requires forall i :: 0 <= i < |y| ==> y[i] != ':'
    ensures LastField(x + ":" + y) == y
  {
    var s := x + ":" + y;
    if y != [] {
      assert s[..|s| - 1] == x + ":" + y[..|y| - 1];
      LastFieldAfterColon(x, y[..|y| - 1]);
      assert y[..|y| - 1] + [y[|y| - 1]] == y;
    }
  }

  lemma LastFieldOfProductLabel()
    ensures LastField(ProductLabel) == "Aurea ACRM"
  {
    assert ProductLabel == "Product" + ":" + "Aurea ACRM";
    LastFieldAfterColon("Product", "Aurea ACRM");
  }

  lemma CollapseOfField()
    ensures Collapse("Aurea ACRM") == "Aurea_ACRM"
  {
    assert AllAlnum("Aurea") && AllAlnum("ACRM");
    CollapseTwoWords("Aurea", "ACRM");
    assert "Aurea" + " " + "ACRM" == "Aurea ACRM";
    assert "Aurea" + "_" + "ACRM" == "Aurea_ACRM";
  }

  /** Two words around a space become two words around an underscore. */
  lemma CollapseTwoWords(a: string, b: string)
    requires AllAlnum(a) && AllAlnum(b) && b != []
    ensures Collapse(a + " " + b) == a + "_" + b
  {
    CollapseKeepsAlnums(b, []);
    assert b + [] == b;
    assert NoneAlnum(" ");
    CollapseRun(" ", b);
    assert a + " " + b == a + (" " + b);
    CollapseKeepsAlnums(a, " " + b);
  }

  // ------------------------------------------------------------ chunking --

  /** `math.ceil(len(issues) / FILES_WANTED)`. */
  function PerFile(n: nat, filesWanted: nat): nat
    requires filesWanted >= 1
  {
    (n + filesWanted - 1) / filesWanted
  }

  /** The slices `issues[i : i + per_file]` for i in `range(0, n, per_file)`. */
  function StrideChunks<T>(s: seq<T>, perFile: nat): seq<seq<T>>
    requires perFile >= 1
    decreases |s|
  {
    if s == [] then [] else
    var e := Min(perFile, |s|);
    [s[..e]] + StrideChunks(s[e..], perFile)
  }

  /** The sizes of the stride slices of n items. */
  function StrideSizes(n: nat, perFile: nat): seq<nat>
    requires perFile >= 1
  {
    if n == 0 then [] else [Min(perFile, n)] + StrideSizes(n - Min(perFile, n), perFile)
  }

  lemma {:induction false} StrideChunksSizes<T>(s: seq<T>, perFile: nat)
    requires perFile >= 1
    ensures Lengths(StrideChunks(s, perFile)) == StrideSizes(|s|, perFile)
    decreases |s|
  {
    if s != [] {
      var e := Min(perFile, |s|);
      StrideChunksSizes(s[e..], perFile);
    }
  }

  /** The stride slices put the issues back together in order. */
  lemma {:induction false} StrideChunksFlatten<T>(s: seq<T>, perFile: nat)
    requires perFile >= 1
    ensures Flatten(StrideChunks(s, perFile)) == s
    decreases |s|
  {
    if s != [] {
      var e := Min(perFile, |s|);
      StrideChunksFlatten(s[e..], perFile);
      assert s[..e] + s[e..] == s;
    }
  }

  /** Every slice but the last is full; the last holds 1 to per_file issues;
      there are ceil(n / per_file) of them. */
  lemma StrideSizesShape(n: nat, perFile: nat)
    requires perFile >= 1
    ensures var z := StrideSizes(n, perFile);
      |z| == (n + perFile - 1) / perFile &&
      (forall j :: 0 <= j < |z| - 1 ==> z[j] == perFile) &&
      (z != [] ==> 1 <= z[|z| - 1] <= perFile)
  {
    StrideSizesCount(n, perFile);
    StrideSizesFull(n, perFile);
  }

  lemma {:induction false} StrideSizesCount(n: nat, perFile: nat)
    requires perFile >= 1
    ensures |StrideSizes(n, perFile)| == (n + perFile - 1) / perFile
  {
    if n > perFile {
      StrideSizesCount(n - perFile, perFile);
      DivShift(n - 1, perFile);
    } else if n > 0 {
      PdfMerge.DivisionUnique(n + perFile - 1, perFile, 1, n - 1);
    }
  }

  lemma DivShift(x: nat, p: nat)
    requires p >= 1
    ensures (x + p) / p == x / p + 1
  {
    var q, r := x / p, x % p;
    assert p * (q + 1) == p * q + p;
    PdfMerge.DivisionUnique(x + p, p, q + 1, r);
  }

  lemma {:induction false} StrideSizesFull(n: nat, perFile: nat)
    requires perFile >= 1
    ensures var z := StrideSizes(n, perFile);
      (forall j :: 0 <= j < |z| - 1 ==> z[j] == perFile) &&
      (z != [] ==> 1 <= z[|z| - 1] <= perFile)
  {
    if n > 0 {
      StrideSizesFull(n - Min(perFile, n), perFile);
    }
  }

  /** With m full slices before a final slice of `last` issues, the sizes are
      m times per_file followed by last. */
  lemma {:induction false} StrideSizesOf(m: nat, perFile: nat, last: nat)
    requires 1 <= last <= perFile
    ensures var z := StrideSizes(m * perFile + last, perFile);
      |z| == m + 1 && z[m] == last && forall j :: 0 <= j < m ==> z[j] == perFile
  {
    if m > 0 {
      assert m * perFile + last - perFile == (m - 1) * perFile + last;
      StrideSizesOf(m - 1, perFile, last);
    }
  }

  lemma PerFileAtLeastOne(n: nat, filesWanted: nat)
    requires n >= 1 && filesWanted >= 1
    ensures PerFile(n, filesWanted) >= 1
    ensures filesWanted * PerFile(n, filesWanted) >= n
  {
    var p := PerFile(n, filesWanted);
    var x := n + filesWanted - 1;
    assert x == filesWanted * p + x % filesWanted;
  }

  lemma DivAtMost(x: nat, p: nat, f: nat)
    requires p >= 1 && x < p * (f + 1)
    ensures x / p <= f
  {
    if x / p > f {
      PdfMerge.MulMonotone(f + 1, x / p, p);
    }
  }

  /** The stride policy writes at most FILES_WANTED files, and per_file >= 1
      once the list is non-empty. */
  lemma StrideCountAtMostWanted(n: nat, filesWanted: nat)
    requires n >= 1 && filesWanted >= 1
    ensures PerFile(n, filesWanted) >= 1
    ensures |StrideSizes(n, PerFile(n, filesWanted))| <= filesWanted
  {
    var p := PerFile(n, filesWanted);
    PerFileAtLeastOne(n, filesWanted);
    StrideSizesShape(n, p);
    assert p * (filesWanted + 1) == filesWanted * p + p;
    DivAtMost(n + p - 1, p, filesWanted);
  }

  /** The stride policy and chunkify's balanced policy choose the same sizes
      exactly when there are fewer issues than files wanted, or the remainder
      n % FILES_WANTED is 0 or FILES_WANTED - 1; otherwise the stride policy's
      last file is more than one short. */
  lemma PoliciesAgreeIff(n: nat, f: nat)
    requires n >= 1 && f >= 1
    ensures StrideSizes(n, PerFile(n, f)) == PdfMerge.ChunkSizes(n, Min(f, n))
        <==> n < f || n % f == 0 || n % f == f - 1
  {
    if n < f {
      AgreeWhenFewIssues(n, f);
    } else if n % f == 0 {
      AgreeWhenDivisible(n, f);
    } else if n % f == f - 1 {
      AgreeWhenOneShort(n, f);
    } else {
      DisagreeOtherwise(n, f);
    }
  }

  /** Fewer issues than files: both policies write one issue per file. */
  lemma AgreeWhenFewIssues(n: nat, f: nat)
    requires 1 <= n < f
    ensures StrideSizes(n, PerFile(n, f)) == PdfMerge.ChunkSizes(n, Min(f, n))
  {
    PdfMerge.DivisionUnique(n + f - 1, f, 1, n - 1);
    PdfMerge.DivisionUnique(n, n, 1, 0);
    StrideSizesOf(n - 1, 1, 1);
    var z, c := StrideSizes(n, 1), PdfMerge.ChunkSizes(n, n);
    assert forall j :: 0 <= j < n ==> z[j] == 1 == c[j];
  }

  lemma AgreeWhenDivisible(n: nat, f: nat)
    requires n >= f >= 1 && n % f == 0
    ensures StrideSizes(n, PerFile(n, f)) == PdfMerge.ChunkSizes(n, Min(f, n))
  {
    var q := n / f;
    DivisibleSplit(n, f);
    StrideSizesOf(f - 1, q, q);
    var z, c := StrideSizes(n, q), PdfMerge.ChunkSizes(n, f);
    assert forall j :: 0 <= j < f ==> z[j] == q == c[j];
  }

  lemma DivisibleSplit(n: nat, f: nat)
    requires n >= f >= 1 && n % f == 0
    ensures n / f >= 1 && PerFile(n, f) == n / f && n == (f - 1) * (n / f) + n / f
  {
    var q := n / f;
    assert n == f * q;
    PdfMerge.DivisionUnique(n + f - 1, f, q, f - 1);
  }

  lemma AgreeWhenOneShort(n: nat, f: nat)
    requires n >= f >= 2 && n % f == f - 1
    ensures StrideSizes(n, PerFile(n, f)) == PdfMerge.ChunkSizes(n, Min(f, n))
  {
    var q := n / f;
    assert n == f * q + f - 1;
    assert q >= 1;
    PdfMerge.DivisionUnique(n + f - 1, f, q + 1, f - 2);
    assert (f - 1) * (q + 1) == f * q + f - q - 1;
    StrideSizesOf(f - 1, q + 1, q);
    var z, c := StrideSizes(n, q + 1), PdfMerge.ChunkSizes(n, f);
    assert forall j :: 0 <= j < f ==> z[j] == c[j];
  }

  lemma DisagreeOtherwise(n: nat, f: nat)
    requires n >= f >= 1 && 0 < n % f < f - 1
    ensures StrideSizes(n, PerFile(n, f)) != PdfMerge.ChunkSizes(n, Min(f, n))
  {
    var q, r := n / f, n % f;
    assert n == f * q + r;
    PdfMerge.DivisionUnique(n + f - 1, f, q + 1, r - 1);
    StrideSizesShape(n, q + 1);
    var z, c := StrideSizes(n, q + 1), PdfMerge.ChunkSizes(n, f);
    if |z| == f {
      assert z[r] == q + 1;
      assert c[r] == q;
    }
  }

  /** 10 issues into 3 files: the stride policy writes [4,4,2] where chunkify
      writes [4,3,3]; 4 issues make only 2 files. */
  lemma PolicyExamples()
    ensures PerFile(10, FilesWanted) == 4
    ensures StrideSizes(10, 4) == [4, 4, 2]
    ensures PdfMerge.ChunkSizes(10, 3) == [4, 3, 3]
    ensures PerFile(4, FilesWanted) == 2 && StrideSizes(4, 2) == [2, 2]
  {
    StrideSizesOf(2, 4, 2);
    StrideSizesOf(1, 2, 2);
  }

  /** `issues_{idx:02d}.md`. */
  function IssuesName(idx: nat): string
  {
    "issues_" + Format.ZeroPad2(idx) + ".md"
  }

  /** Different file numbers never write to the same file. */
  lemma IssuesNamesDistinct(a: nat, b: nat)
    requires a != b
    ensures IssuesName(a) != IssuesName(b)
  {
    Format.ZeroPad2Injective(a, b);
    Format.ZeroPad2Properties(a);
    Format.ZeroPad2Properties(b);
    assert Format.ZeroPad2(a) == IssuesName(a)[7..|IssuesName(a)| - 3];
    assert Format.ZeroPad2(b) == IssuesName(b)[7..|IssuesName(b)| - 3];
  }

  datatype IssueFile<T> = IssueFile(name: string, issues: seq<T>)

  datatype IssuesRun<T> = NothingFound | Files(files: seq<IssueFile<T>>)

  function Groups<T>(files: seq<IssueFile<T>>): seq<seq<T>>
  {
    seq(|files|, j requires 0 <= j < |files| => files[j].issues)
  }

  /** Where slice k starts: k times per_file. */
  function Start(k: nat, p: nat): nat
  {
    if k == 0 then 0 else Start(k - 1, p) + p
  }

  lemma {:induction false} StartIsProduct(k: nat, p: nat)
    ensures Start(k, p) == k * p
  {
    if k > 0 {
      StartIsProduct(k - 1, p);
      assert k * p == (k - 1) * p + p;
    }
  }

  lemma MulDiv(m: nat, p: nat)
    requires p >= 1
    ensures (m * p) / p == m
  {
    PdfMerge.DivisionUnique(m * p, p, m, 0);
  }

  lemma StrideIndex(k: nat, p: nat)
    requires p >= 1
    ensures Start(k, p) / p == k && Start(k + 1, p) == Start(k, p) + p
  {
    StartIsProduct(k, p);
    MulDiv(k, p);
  }

  /** `s[k * p : (k + 1) * p]`, cut at the end of the list. */
  function Slice<T>(s: seq<T>, k: nat, p: nat): seq<T>
  {
    s[Min(Start(k, p), |s|)..Min(Start(k, p) + p, |s|)]
  }

  lemma SliceShift<T>(s: seq<T>, p: nat, j: nat)
    requires p <= |s|
    ensures Slice(s[p..], j, p) == Slice(s, j + 1, p)
  {
    var t, x := s[p..], Start(j, p);
    assert Start(j + 1, p) == x + p;
    var lo, hi := Min(x, |t|), Min(x + p, |t|);
    assert p + lo == Min(x + p, |s|) && p + hi == Min(x + p + p, |s|);
    assert t[lo..hi] == s[p + lo..p + hi];
  }

  /** When k slices reach the end of s and k - 1 do not, there are k stride
      chunks. */
  lemma {:induction false} StrideChunksCount<T>(s: seq<T>, p: nat, k: nat)
    requires p >= 1 && Start(k, p) >= |s| && (k == 0 || Start(k - 1, p) < |s|)
    ensures |StrideChunks(s, p)| == k
  {
    if k > 1 {
      assert Start(k - 1, p) == Start(k - 2, p) + p;
      StrideChunksCount(s[p..], p, k - 1);
      assert StrideChunks(s, p) == [s[..p]] + StrideChunks(s[p..], p);
    } else if k == 1 {
      LastSlice(s, p);
    }
  }

  /** Stride chunk j is slice j. */
  lemma {:induction false} StrideChunkIsSlice<T>(s: seq<T>, p: nat, j: nat)
    requires p >= 1 && j < |StrideChunks(s, p)|
    ensures StrideChunks(s, p)[j] == Slice(s, j, p)
  {
    if j == 0 {
      assert Start(0, p) == 0;
    } else {
      assert |s| > p;
      var d := StrideChunks(s[p..], p);
      assert StrideChunks(s, p) == [s[..p]] + d;
      StrideChunkIsSlice(s[p..], p, j - 1);
      SliceShift(s, p, j - 1);
    }
  }

  lemma LastSlice<T>(s: seq<T>, p: nat)
    requires 1 <= p && 0 < |s| <= p
    ensures StrideChunks(s, p) == [s] && Slice(s, 0, p) == s
  {
    assert s[..Min(p, |s|)] == s && s[Min(p, |s|)..] == [];
  }

  /** The state of the file loop once the files for the first i issues are
      written: file j + 1 holds slice j. */
  ghost predicate Written<T>(issues: seq<T>, perFile: nat, files: seq<IssueFile<T>>, i: nat)
    requires perFile >= 1
  {
    i == Start(|files|, perFile) && (files == [] || Start(|files| - 1, perFile) < |issues|) &&
    forall j :: 0 <= j < |files| ==> files[j] == IssueFile(IssuesName(j + 1), Slice(issues, j, perFile))
  }

  lemma WriteStep<T>(issues: seq<T>, perFile: nat, files: seq<IssueFile<T>>, i: nat)
    requires perFile >= 1 && i < |issues| && Written(issues, perFile, files, i)
    ensures Written(issues, perFile,
      files + [IssueFile(IssuesName(i / perFile + 1), issues[i..Min(i + perFile, |issues|)])], i + perFile)
  {
    var k := |files|;
    StrideIndex(k, perFile);
    assert i / perFile + 1 == k + 1;
    assert issues[i..Min(i + perFile, |issues|)] == Slice(issues, k, perFile);
    WrittenExtend(issues, perFile, files, i);
  }

  /** One more file, holding the next slice, keeps `Written`. */
  lemma WrittenExtend<T>(issues: seq<T>, perFile: nat, files: seq<IssueFile<T>>, i: nat)
    requires perFile >= 1 && i < |issues| && Written(issues, perFile, files, i)
    requires Start(|files| + 1, perFile) == i + perFile
    ensures Written(issues, perFile,
      files + [IssueFile(IssuesName(|files| + 1), Slice(issues, |files|, perFile))], i + perFile)
  {
    var k := |files|;
    var next := files + [IssueFile(IssuesName(k + 1), Slice(issues, k, perFile))];
    forall j | 0 <= j < |next|
      ensures next[j] == IssueFile(IssuesName(j + 1), Slice(issues, j, perFile))
    {
      if j < k {
        assert next[j] == files[j];
      }
    }
  }

  lemma WrittenAll<T>(issues: seq<T>, perFile: nat, files: seq<IssueFile<T>>, i: nat)
    requires perFile >= 1 && i >= |issues| && Written(issues, perFile, files, i)
    ensures Groups(files) == StrideChunks(issues, perFile)
  {
    StrideChunksCount(issues, perFile, |files|);
    forall j | 0 <= j < |files|
      ensures Groups(files)[j] == StrideChunks(issues, perFile)[j]
    {
      StrideChunkIsSlice(issues, perFile, j);
    }
  }

  /** The part of `main` after the search: nothing found ends the run;
      otherwise per_file = ceil(n / FILES_WANTED) and one file per slice. */
  method WriteIssueFiles<T>(issues: seq<T>, filesWanted: nat) returns (run: IssuesRun<T>)
    requires filesWanted >= 1
    ensures run == NothingFound <==> issues == []
    ensures run.Files? ==>
      var p := PerFile(|issues|, filesWanted);
      Groups(run.files) == StrideChunks(issues, p) &&
      forall j :: 0 <= j < |run.files| ==> run.files[j].name == IssuesName(j + 1)
  {
    if issues == [] {
      return NothingFound;
    }
    var perFile := PerFile(|issues|, filesWanted);
    PerFileAtLeastOne(|issues|, filesWanted);
    var files := WriteSlices(issues, perFile);
    return Files(files);
  }

  /** The loop `for i in range(0, n, per_file)`: file number
      `i // per_file + 1` gets the slice `issues[i : i + per_file]`. */
  method WriteSlices<T>(issues: seq<T>, perFile: nat) returns (files: seq<IssueFile<T>>)
    requires perFile >= 1
    ensures Groups(files) == StrideChunks(issues, perFile)
    ensures forall j :: 0 <= j < |files| ==> files[j] == IssueFile(IssuesName(j + 1), Slice(issues, j, perFile))
  {
    var n := |issues|;
    files := [];
    var i := 0;
    while i < n
      invariant Written(issues, perFile, files, i)
      decreases n - i
    {
      var idx := i / perFile + 1;
      var file := IssueFile(IssuesName(idx), issues[i..Min(i + perFile, n)]);
      WriteStep(issues, perFile, files, i);
      files := files + [file];
      i := i + perFile;
    }
    WrittenAll(issues, perFile, files, i);
  }

  /** What the files of a run hold: all issues in order, every file but the
      last with exactly per_file issues, the last with 1 to per_file, and at
      most FILES_WANTED files. */
  lemma IssueFilesCover<T>(issues: seq<T>, filesWanted: nat)
    requires issues != [] && filesWanted >= 1
    ensures var p := PerFile(|issues|, filesWanted);
      var g := StrideChunks(issues, p);
      p >= 1 && Flatten(g) == issues && 1 <= |g| <= filesWanted &&
      (forall j :: 0 <= j < |g| - 1 ==> |g[j]| == p) &&
      1 <= |g[|g| - 1]| <= p
  {
    var p := PerFile(|issues|, filesWanted);
    PerFileAtLeastOne(|issues|, filesWanted);
    StrideChunksFlatten(issues, p);
    StrideChunksSizes(issues, p);
    StrideSizesShape(|issues|, p);
    StrideCountAtMostWanted(|issues|, filesWanted);
    var g := StrideChunks(issues, p);
    assert g != [];
    assert forall j :: 0 <= j < |g| ==> |g[j]| == Lengths(g)[j];
  }

  // ------------------------------------------------------------ rendering --

  /** `"closed" if iss.state == "closed" else "open"`. */
  function RenderState(state: string): (r: string)
    ensures r == "closed" <==> state == "closed"
    ensures r == "open" <==> state != "closed"
  {
    if state == "closed" then "closed" else "open"
  }

  /** `sep.join(xs)`. */
  function Join(sep: string, xs: seq<string>): string
  {
    if xs == [] then "" else if |xs| == 1 then xs[0] else xs[0] + sep + Join(sep, xs[1..])
  }

  /** A join with a non-empty separator is empty exactly when there is nothing
      to join or only one empty string. */
  lemma JoinEmptyIff(sep: string, xs: seq<string>)
    requires sep != ""
    ensures Join(sep, xs) == "" <==> xs == [] || xs == [""]
  {
    if |xs| >= 2 {
      assert |Join(sep, xs)| >= |sep|;
    }
  }

  const Dash: string := "–"

  /** `", ".join(logins) or "–"`. */
  function AssigneesText(logins: seq<string>): string
  {
    var j := Join(", ", logins);
    if j == "" then Dash else j
  }

  /** No assignees render as the dash; otherwise the joined logins (the dash
      also stands for a single empty login). */
  lemma AssigneesPlaceholder(logins: seq<string>)
    ensures logins == [] ==> AssigneesText(logins) == Dash
    ensures (forall i :: 0 <= i < |logins| ==> logins[i] != "") && logins != [] ==>
      AssigneesText(logins) == Join(", ", logins) != ""
  {
    JoinEmptyIff(", ", logins);
  }

  const NoDescription: string := "*No description*"

  /** `iss.body or '*No description*'`. */
  function BodyText(body: Option<string>): (r: string)
    ensures r != ""
    ensures body.Some? && body.value != "" ==> r == body.value
    ensures body.None? || body.value == "" ==> r == NoDescription
  {
    if body.None? || body.value == "" then NoDescription else body.value
  }
}

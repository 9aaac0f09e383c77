/** Classification of collected paths as image candidates: the extension of a
    path as Go's path.Ext computes it, ASCII lower-casing, and membership in the
    fixed set of image extensions (photos.go, main). */
module PathExt {

  /** The text after the last '/' of p; all of p when p has no '/'. */
  function LastElement(p: string): (r: string)
    ensures |r| <= |p| && r == p[|p| - |r|..]
    ensures '/' !in r
    ensures |r| < |p| ==> p[|p| - |r| - 1] == '/'
  {
    if p == [] || p[|p| - 1] == '/' then []
    else LastElement(p[..|p| - 1]) + [p[|p| - 1]]
  }

  /** Go's path.Ext loop over p[..n]: walks backwards from n - 1, stops at the
      first '/', and answers the index of the first '.' it meets, or -1. */
  function DotFrom(p: string, n: nat): (k: int)
    requires n <= |p|
    ensures -1 <= k < n
    decreases n
  {
    if n == 0 || p[n - 1] == '/' then -1
    else if p[n - 1] == '.' then n - 1
    else DotFrom(p, n - 1)
  }

  /** The scan answers a '.' with no '.' and no '/' after it, or -1 when every
      '.' is followed by a '/'. */
  lemma {:induction false} DotFromSpec(p: string, n: nat)
    requires n <= |p|
    ensures var k := DotFrom(p, n);
      k >= 0 ==> p[k] == '.' && forall j :: k < j < n ==> p[j] != '.' && p[j] != '/'
    ensures var k := DotFrom(p, n);
      k < 0 ==> forall j :: 0 <= j < n && p[j] == '.' ==> exists s :: j < s < n && p[s] == '/'
    decreases n
  {
    if n > 0 && p[n - 1] != '/' && p[n - 1] != '.' {
      DotFromSpec(p, n - 1);
    }
  }

  /** The '.' the scan finds, when there is one, lies in the last element. */
  lemma FoundDotInLastElement(p: string)
    requires DotFrom(p, |p|) >= 0
    ensures |p| - |LastElement(p)| <= DotFrom(p, |p|)
    ensures '.' in LastElement(p)
    ensures ExtShaped(p[DotFrom(p, |p|)..])
  {
    DotFromSpec(p, |p|);
    var k := DotFrom(p, |p|);
    var last := LastElement(p);
    var start := |p| - |last|;
    if start > 0 {
      assert p[start - 1] == '/';
      assert start - 1 <= k && start - 1 != k;
    }
    assert last[k - start] == p[k];
    var r := p[k..];
    forall j | 1 <= j < |r| ensures r[j] != '.' && r[j] != '/' {
      assert r[j] == p[k + j];
    }
  }

  /** When the scan finds no '.', the last element holds none. */
  lemma NoDotInLastElement(p: string)
    requires DotFrom(p, |p|) < 0
    ensures '.' !in LastElement(p)
  {
    DotFromSpec(p, |p|);
  }

  /** s ends with e. */
  predicate EndsWith(s: string, e: string)
  {
    |e| <= |s| && s[|s| - |e|..] == e
  }

  /** e is a '.' followed by characters that are neither '.' nor '/'. */
  predicate ExtShaped(e: string)
  {
    0 < |e| && e[0] == '.' && forall j :: 1 <= j < |e| ==> e[j] != '.' && e[j] != '/'
  }

  /** path.Ext: the suffix of p from the '.' the scan finds, or empty. */
  function Ext(p: string): string
  {
    var k := DotFrom(p, |p|);
    if k < 0 then [] else p[k..]
  }

  /** The extension is empty exactly when the last element holds no '.';
      otherwise it is the suffix of the last element from its last '.'. */
  lemma ExtSpec(p: string)
    ensures var r := Ext(p); r == [] || (EndsWith(p, r) && ExtShaped(r))
    ensures Ext(p) == [] <==> '.' !in LastElement(p)
    ensures |Ext(p)| <= |LastElement(p)|
  {
    var k := DotFrom(p, |p|);
    if k < 0 {
      NoDotInLastElement(p);
      assert Ext(p) == [];
    } else {
      FoundDotInLastElement(p);
      var r := p[k..];
      assert Ext(p) == r;
      assert r != [] by {
        assert r[0] == p[k];
      }
      assert EndsWith(p, r) by {
        assert p[|p| - |r|..] == r;
      }
    }
  }

  /** Go's strings.ToLower on one character, restricted to ASCII letters. */
  function LowerChar(c: char): char
  {
    if 'A' <= c <= 'Z' then (c as int - 'A' as int + 'a' as int) as char else c
  }

  function Lower(s: string): (r: string)
    ensures |r| == |s|
  {
    seq(|s|, i requires 0 <= i < |s| => LowerChar(s[i]))
  }

  /** The allow-list of main's fileTypes set. */
  const ImageExtensions: set<string> := {".jpg", ".jpeg", ".png", ".bmp"}

  /** The test `fileTypes.Contains(strings.ToLower(path.Ext(file)))`. */
  predicate IsImage(p: string)
  {
    Lower(Ext(p)) in ImageExtensions
  }

  /** Lower-casing moves no '.' and no '/', so the scan stops at the same index. */
  lemma {:induction false} DotFromLower(p: string, n: nat)
    requires n <= |p|
    ensures DotFrom(Lower(p), n) == DotFrom(p, n)
    decreases n
  {
    if n > 0 {
      assert Lower(p)[n - 1] == LowerChar(p[n - 1]);
      DotFromLower(p, n - 1);
    }
  }

  /** Taking the extension and lower-casing commute. */
  lemma ExtLower(p: string)
    ensures Ext(Lower(p)) == Lower(Ext(p))
  {
    DotFromLower(p, |p|);
    var k := DotFrom(p, |p|);
    if k >= 0 {
      assert Lower(p)[k..] == Lower(p[k..]);
    }
  }

  /** Classification ignores letter case: paths equal up to case get the same decision. */
  lemma IsImageCaseInsensitive(p: string, q: string)
    requires Lower(p) == Lower(q)
    ensures IsImage(p) == IsImage(q)
  {
    IsImageOfLower(p);
    IsImageOfLower(q);
  }

  /** A '.' followed only by characters other than '.' and '/' up to n is where the scan stops. */
  lemma {:induction false} DotFromFinds(p: string, k: nat, n: nat)
    requires k < n <= |p| && p[k] == '.'
    requires forall j :: k < j < n ==> p[j] != '.' && p[j] != '/'
    ensures DotFrom(p, n) == k
    decreases n
  {
    if n - 1 != k {
      DotFromFinds(p, k, n - 1);
    }
  }

  /** A suffix made of a '.' and then neither '.' nor '/' is exactly the extension. */
  lemma SuffixIsExt(q: string, e: string)
    requires EndsWith(q, e) && ExtShaped(e)
    ensures Ext(q) == e
  {
    var k := |q| - |e|;
    forall j | k < j < |q| ensures q[j] != '.' && q[j] != '/' {
      assert q[j] == e[j - k];
    }
    assert q[k] == e[0];
    DotFromFinds(q, k, |q|);
    assert Ext(q) == q[k..];
  }

  /** Every allow-listed extension is a '.' followed by letters. */
  lemma ImageExtensionsShape(e: string)
    requires e in ImageExtensions
    ensures ExtShaped(e)
  {
  }

  /** The test can equally be made on the extension of the lower-cased path. */
  lemma IsImageOfLower(p: string)
    ensures IsImage(p) == (Ext(Lower(p)) in ImageExtensions)
  {
    ExtLower(p);
  }

  lemma ListedExtEndsWith(q: string)
    requires Ext(q) in ImageExtensions
    ensures exists e :: e in ImageExtensions && EndsWith(q, e)
  {
    ExtSpec(q);
    assert EndsWith(q, Ext(q));
  }

  lemma LastElementOfElement(s: string)
    requires '/' !in s
    ensures LastElement(s) == s
  {
  }

  /** The extension depends on the last path element only: directories with a
      '.' in their name do not lend it to the file. */
  lemma ExtOfLastElement(p: string)
    ensures Ext(p) == Ext(LastElement(p))
  {
    var last := LastElement(p);
    var r := Ext(p);
    ExtSpec(p);
    if r == [] {
      LastElementOfElement(last);
      ExtSpec(last);
    } else {
      ShorterSuffix(p, last, r);
      SuffixIsExt(last, r);
    }
  }

  /** A suffix of p no longer than the suffix s of p is a suffix of s. */
  lemma ShorterSuffix(p: string, s: string, r: string)
    requires EndsWith(p, s) && EndsWith(p, r) && |r| <= |s|
    ensures EndsWith(s, r)
  {
    assert s[|s| - |r|..] == p[|p| - |r|..];
  }

  /** A listed suffix of the lower-cased path makes the path an image candidate. */
  lemma ListedSuffixIsImage(p: string, e: string)
    requires e in ImageExtensions && EndsWith(Lower(p), e)
    ensures IsImage(p)
  {
    IsImageOfLower(p);
    ImageExtensionsShape(e);
    SuffixIsExt(Lower(p), e);
  }

  /** Independent reading of the test: the lower-cased path ends with one of the
      four extensions. */
  lemma IsImageBySuffix(p: string)
    ensures IsImage(p) <==> exists e :: e in ImageExtensions && EndsWith(Lower(p), e)
  {
    IsImageOfLower(p);
    if Ext(Lower(p)) in ImageExtensions {
      ListedExtEndsWith(Lower(p));
    }
    if e :| e in ImageExtensions && EndsWith(Lower(p), e) {
      ListedSuffixIsImage(p, e);
    }
  }
}

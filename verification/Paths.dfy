/** Path text as src/platform/paths.rs treats it: ASCII case is ignored, and one path lies
    under another only at a `/` boundary. */
module Paths {

  datatype Option<+T> = None | Some(value: T)

  function FoldChar(c: char): char {
    if 'A' <= c <= 'Z' then (c as int + 32) as char else c
  }

  /** `match_key`: the lower-cased text under which two spellings of a path are the same. */
  function MatchKey(p: string): string {
    seq(|p|, i requires 0 <= i < |p| => FoldChar(p[i]))
  }

  /** Every run of slashes as one. */
  function CollapseSlashes(p: string): string {
    if |p| == 0 then ""
    else if |p| > 1 && p[|p| - 1] == '/' && p[|p| - 2] == '/' then CollapseSlashes(p[..|p| - 1])
    else CollapseSlashes(p[..|p| - 1]) + [p[|p| - 1]]
  }

  /** `normalize_syntax`: single slashes, and none at the end except the root itself. */
  function NormalizeSyntax(p: string): string {
    var s := CollapseSlashes(p);
    if |s| > 1 && s[|s| - 1] == '/' then s[..|s| - 1] else s
  }

  predicate DoubledAt(p: string, i: nat)
    requires i < |p|
  {
    i > 0 && p[i] == '/' && p[i - 1] == '/'
  }

  ghost predicate SingleSlashes(p: string) {
    forall i :: 0 <= i < |p| ==> !DoubledAt(p, i)
  }

  /** `collapse_redundant_slashes` */
  method CollapseRedundantSlashes(path: string) returns (result: string)
    ensures result == NormalizeSyntax(path)
  {
    result := "";
    var isLastSlash := false;
    for n := 0 to |path|
      invariant result == CollapseSlashes(path[..n])
      invariant isLastSlash <==> n > 0 && path[n - 1] == '/'
    {
      var ch := path[n];
      assert path[..n + 1][..n] == path[..n];
      if ch == '/' {
        if !isLastSlash {
          result := result + "/";
          isLastSlash := true;
        }
      } else {
        result := result + [ch];
        isLastSlash := false;
      }
    }
    assert path[..|path|] == path;
    if |result| > 1 && result[|result| - 1] == '/' {
      result := result[..|result| - 1];
    }
  }

  lemma {:induction false} CollapsedShape(p: string)
    ensures SingleSlashes(CollapseSlashes(p))
    ensures |p| > 0 ==> |CollapseSlashes(p)| > 0 && CollapseSlashes(p)[|CollapseSlashes(p)| - 1] == p[|p| - 1]
    ensures SingleSlashes(p) ==> CollapseSlashes(p) == p
  {
    if |p| > 0 {
      var rest := p[..|p| - 1];
      CollapsedShape(rest);
      assert p == rest + [p[|p| - 1]];
      assert SingleSlashes(p) ==> SingleSlashes(rest) && !DoubledAt(p, |p| - 1) by {
        assert forall i :: 0 <= i < |rest| ==> DoubledAt(rest, i) == DoubledAt(p, i);
      }
      var s := CollapseSlashes(rest);
      var more := s + [p[|p| - 1]];
      assert forall i :: 0 <= i < |s| ==> DoubledAt(more, i) == DoubledAt(s, i);
      assert |rest| > 0 && p[|p| - 1] == '/' && DoubledAt(more, |s|) ==> rest[|rest| - 1] == '/';
      assert !(|p| > 1 && p[|p| - 1] == '/' && p[|p| - 2] == '/') ==> !DoubledAt(more, |s|);
    }
  }

  ghost predicate Normal(p: string) {
    SingleSlashes(p) && (|p| > 1 ==> p[|p| - 1] != '/')
  }

  /** The normal spelling has single slashes and no closing one, and is its own normal spelling. */
  lemma NormalizedShape(p: string)
    ensures Normal(NormalizeSyntax(p))
    ensures Normal(p) ==> NormalizeSyntax(p) == p
  {
    CollapsedShape(p);
    var s, r := CollapseSlashes(p), NormalizeSyntax(p);
    assert forall i :: 0 <= i < |r| ==> DoubledAt(r, i) == DoubledAt(s, i);
    if |s| > 1 && s[|s| - 1] == '/' {
      assert !DoubledAt(s, |s| - 1);
    }
  }

  /** `child_suffix`: what is left of `path` below `root`; empty when they are the same path. */
  function ChildSuffix(path: string, root: string): Option<string> {
    if MatchKey(path) == MatchKey(root) then Some("")
    else if root == "" || |path| <= |root| then None
    else if path[|root|] != '/' || MatchKey(path[..|root|]) != MatchKey(root) then None
    else Some(path[|root|..])
  }

  predicate Covers(root: string, path: string) {
    ChildSuffix(path, root).Some?
  }

  // ----- keys, letter by letter -----

  predicate IsCapital(c: char) {
    'A' <= c <= 'Z'
  }

  /** Equal, or one is an ASCII capital and the other its small letter, 32 code points above. */
  predicate SameLetter(c: char, d: char) {
    || c == d
    || (IsCapital(c) && d as int == c as int + 32)
    || (IsCapital(d) && c as int == d as int + 32)
  }

  lemma FoldsAlike(c: char, d: char)
    ensures FoldChar(c) == FoldChar(d) <==> SameLetter(c, d)
    ensures !IsCapital(FoldChar(c))
    ensures !IsCapital(c) ==> FoldChar(c) == c
  {
  }

  ghost predicate SameLetters(a: string, b: string) {
    |a| == |b| && forall i :: 0 <= i < |a| ==> SameLetter(a[i], b[i])
  }

  ghost predicate NoCapitals(p: string) {
    forall i :: 0 <= i < |p| ==> !IsCapital(p[i])
  }

  /** Two texts have one key exactly when they are the same letter by letter, up to ASCII case. */
  lemma SameKeyIff(a: string, b: string)
    ensures MatchKey(a) == MatchKey(b) <==> SameLetters(a, b)
  {
    forall i | 0 <= i < |a| && i < |b|
      ensures MatchKey(a)[i] == MatchKey(b)[i] <==> SameLetter(a[i], b[i])
    {
      FoldsAlike(a[i], b[i]);
    }
    assert |MatchKey(a)| == |a| && |MatchKey(b)| == |b|;
  }

  /** The key is the spelling without capitals: it has none, and a text that has none is its own key. */
  lemma KeyIsLowerCase(p: string)
    ensures NoCapitals(MatchKey(p)) && SameLetters(p, MatchKey(p))
    ensures NoCapitals(p) ==> MatchKey(p) == p
  {
    forall i | 0 <= i < |p|
      ensures !IsCapital(MatchKey(p)[i]) && SameLetter(p[i], MatchKey(p)[i])
      ensures !IsCapital(p[i]) ==> MatchKey(p)[i] == p[i]
    {
      FoldsAlike(p[i], p[i]);
      FoldsAlike(p[i], FoldChar(p[i]));
      FoldsAlike(FoldChar(p[i]), FoldChar(p[i]));
    }
  }

  lemma KeyOfConcat(a: string, b: string)
    ensures MatchKey(a + b) == MatchKey(a) + MatchKey(b)
  {
  }

  lemma KeyOfSlice(a: string, i: nat)
    requires i <= |a|
    ensures MatchKey(a[i..]) == MatchKey(a)[i..]
    ensures MatchKey(a[..i]) == MatchKey(a)[..i]
  {
  }

  /** Covering read off the keys alone: a key prefix that stops at a `/`. */
  lemma CoversByKey(root: string, path: string)
    ensures Covers(root, path) <==>
            && MatchKey(root) <= MatchKey(path)
            && (|root| == |path| || (root != "" && MatchKey(path)[|root|] == '/'))
    ensures Covers(root, path) ==> ChildSuffix(path, root) == Some(path[|root|..])
  {
    if |root| <= |path| {
      KeyOfSlice(path, |root|);
      if |root| == |path| {
        assert path[..|root|] == path;
      }
    }
  }

  /** Covering letter by letter: the root is the front of the path up to ASCII case, and the path ends
      there or goes on with a `/`. */
  lemma CoversByLetter(root: string, path: string)
    ensures Covers(root, path) <==>
            && |root| <= |path| && SameLetters(root, path[..|root|])
            && (|root| == |path| || (root != "" && path[|root|] == '/'))
    ensures Covers(root, path) ==> ChildSuffix(path, root) == Some(path[|root|..])
  {
    CoversByKey(root, path);
    if |root| <= |path| {
      SameKeyIff(root, path[..|root|]);
      KeyOfSlice(path, |root|);
      if |root| < |path| {
        FoldsAlike(path[|root|], '/');
      }
    }
  }

  lemma CoversSelf(p: string)
    ensures Covers(p, p)
  {
  }

  lemma CoversTransitive(a: string, b: string, c: string)
    requires Covers(a, b) && Covers(b, c)
    ensures Covers(a, c)
  {
    CoversByKey(a, b);
    CoversByKey(b, c);
    CoversByKey(a, c);
    if |a| < |b| {
      assert MatchKey(c)[|a|] == MatchKey(b)[|a|];
    }
  }

  /** Two roots of one path are nested, the shorter around the longer. */
  lemma CoversComparable(a: string, b: string, c: string)
    requires Covers(a, c) && Covers(b, c) && |a| <= |b|
    ensures Covers(a, b)
    ensures |a| == |b| ==> MatchKey(a) == MatchKey(b)
  {
    CoversByKey(a, c);
    CoversByKey(b, c);
    CoversByKey(a, b);
    assert MatchKey(a) == MatchKey(c)[..|a|];
    assert MatchKey(b) == MatchKey(c)[..|b|];
    assert MatchKey(b)[..|a|] == MatchKey(a);
  }

  /** Covering depends on the spelling of neither side. */
  lemma CoversRespell(a: string, a': string, p: string, p': string)
    requires Covers(a, p) && MatchKey(a) == MatchKey(a') && MatchKey(p) == MatchKey(p')
    ensures Covers(a', p')
  {
    CoversByKey(a, p);
    CoversByKey(a', p');
    assert |a| == |MatchKey(a)| && |a'| == |MatchKey(a')|;
    assert |p| == |MatchKey(p)| && |p'| == |MatchKey(p')|;
  }

  /** Neither path lies under the other. */
  ghost predicate Apart(a: string, b: string) {
    !Covers(a, b) && !Covers(b, a)
  }

  lemma ApartBelow(a: string, b: string, p: string)
    requires Apart(a, b) && Covers(b, p)
    ensures !Covers(a, p)
  {
    if Covers(a, p) {
      if |a| <= |b| {
        CoversComparable(a, b, p);
      } else {
        CoversComparable(b, a, p);
      }
    }
  }

  lemma SuffixBelow(a: string, s: string)
    requires a != "" && s != "" && s[0] == '/'
    ensures Covers(a, a + s) && !Covers(a + s, a)
  {
    KeyOfConcat(a, s);
    CoversByKey(a, a + s);
    CoversByKey(a + s, a);
  }
}

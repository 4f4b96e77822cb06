/** What the normal spelling of a path says: its components and whether it starts at the root,
    from src/platform/paths.rs. */
module PathSyntax {
  import opened Paths
  import opened Text

  // ----- components -----

  function NonEmpty(parts: seq<string>): seq<string> {
    if |parts| == 0 then [] else (if parts[0] == "" then [] else [parts[0]]) + NonEmpty(parts[1..])
  }

  /** The names between the slashes. */
  function Components(p: string): seq<string> {
    NonEmpty(Split(p, '/'))
  }

  function Joined(names: seq<string>): string {
    if |names| == 0 then ""
    else if |names| == 1 then names[0]
    else Joined(names[..|names| - 1]) + "/" + names[|names| - 1]
  }

  predicate Rooted(p: string) {
    p != "" && p[0] == '/'
  }

  /** The names with single slashes between them, behind one slash if the path has any in front. */
  function Spelled(p: string): string {
    (if Rooted(p) then "/" else "") + Joined(Components(p))
  }

  predicate EndsOpen(p: string) {
    p == "" || p[|p| - 1] == '/'
  }

  // ----- one more letter -----

  lemma {:induction false} NonEmptyAppends(a: seq<string>, b: seq<string>)
    ensures NonEmpty(a + b) == NonEmpty(a) + NonEmpty(b)
  {
    if |a| == 0 {
      assert a + b == b;
    } else {
      NonEmptyAppends(a[1..], b);
      TailOfConcat(a, b);
      Assoc(if a[0] == "" then [] else [a[0]], NonEmpty(a[1..]), NonEmpty(b));
    }
  }

  lemma {:induction false} SplitOfSlash(p: string)
    ensures Split(p + ['/'], '/') == Split(p, '/') + [""]
    decreases |p|
  {
    var i := FirstIndex(p, '/');
    if i < |p| {
      var a, b := p[..i], p[i + 1..];
      assert p == a + ['/'] + b && p + ['/'] == a + ['/'] + (b + ['/']);
      SplitOfConcat(a, '/', b);
      SplitOfConcat(a, '/', b + ['/']);
      SplitOfSlash(b);
      Assoc([a], Split(b, '/'), [""]);
    } else {
      SplitOfPlain(p, '/');
      SplitOfConcat(p, '/', "");
      SplitOfPlain("", '/');
      assert p + ['/'] + "" == p + ['/'];
    }
  }

  lemma {:induction false} LastPiece(p: string)
    ensures Split(p, '/')[|Split(p, '/')| - 1] == "" <==> EndsOpen(p)
    decreases |p|
  {
    var i := FirstIndex(p, '/');
    if i < |p| {
      LastPiece(p[i + 1..]);
      assert Split(p, '/') == [p[..i]] + Split(p[i + 1..], '/');
    }
  }

  lemma AtEnd(parts: seq<string>, last: string)
    ensures NonEmpty(parts + [last]) == NonEmpty(parts) + if last == "" then [] else [last]
  {
    NonEmptyAppends(parts, [last]);
    assert [last][1..] == [];
  }

  /** A slash adds no name; another letter goes to the last name, or starts one behind a slash. */
  lemma OneMoreLetter(p: string, d: char)
    ensures d == '/' ==> Components(p + [d]) == Components(p)
    ensures d != '/' && EndsOpen(p) ==> Components(p + [d]) == Components(p) + [[d]]
    ensures d != '/' && !EndsOpen(p) ==>
              var names := Components(p);
              |names| > 0 && Components(p + [d]) == names[..|names| - 1] + [names[|names| - 1] + [d]]
  {
    var parts := Split(p, '/');
    var front, last := parts[..|parts| - 1], parts[|parts| - 1];
    assert parts == front + [last];
    SplitOfSlash(p);
    LastPiece(p);
    AtEnd(front, last);
    if d == '/' {
      AtEnd(parts, "");
    } else {
      SplitOfLonger(p, '/', d);
      assert Split(p + [d], '/') == front + [last + [d]];
      AtEnd(front, last + [d]);
      assert EndsOpen(p) ==> last + [d] == [d] && Components(p) == NonEmpty(front);
      assert !EndsOpen(p) ==> Components(p)[..|Components(p)| - 1] == NonEmpty(front);
    }
  }

  lemma JoinedWithMore(names: seq<string>, name: string, d: char)
    ensures Joined(names + [name + [d]]) == Joined(names + [name]) + [d]
    ensures Joined(names + [name]) == if names == [] then name else Joined(names) + "/" + name
  {
    assert (names + [name])[..|names|] == names && (names + [name + [d]])[..|names|] == names;
    if |names| > 0 {
      Assoc(Joined(names) + "/", name, [d]);
    }
  }

  // ----- the normal spelling -----

  /** Collapsing keeps at most the one slash the text ends in. */
  lemma {:induction false} CollapsedSpelling(p: string)
    ensures CollapseSlashes(p) == Spelled(p) + Open(p)
    decreases |p|
  {
    if p == "" {
      SplitOfPlain("", '/');
    } else {
      var rest, d := p[..|p| - 1], p[|p| - 1];
      assert p == rest + [d];
      CollapsedSpelling(rest);
      CollapseMore(rest, d);
      if rest == "" {
        SpelledLetter(d);
      } else if d == '/' {
        SpelledSlash(rest);
      } else {
        SpelledMore(rest, d);
      }
    }
  }

  lemma CollapseMore(rest: string, d: char)
    ensures CollapseSlashes(rest + [d]) ==
            CollapseSlashes(rest) + if rest != "" && d == '/' && EndsOpen(rest) then "" else [d]
  {
    assert (rest + [d])[..|rest|] == rest;
    assert CollapseSlashes(rest) + "" == CollapseSlashes(rest);
  }

  function Open(p: string): string {
    if EndsOpen(p) && Components(p) != [] then "/" else ""
  }

  lemma SpelledLetter(d: char)
    ensures Spelled([d]) == [d] && Open([d]) == ""
  {
    OneMoreLetter("", d);
    SplitOfPlain("", '/');
    assert "" + [d] == [d];
    JoinedWithMore([], "", d);
    assert d != '/' ==> !EndsOpen([d]);
  }

  lemma SpelledSlash(rest: string)
    requires rest != ""
    ensures Spelled(rest + ['/']) == Spelled(rest)
    ensures Open(rest + ['/']) == if EndsOpen(rest) then Open(rest) else "/"
  {
    OneMoreLetter(rest, '/');
    NamesUnlessSlashes(rest);
  }

  lemma SpelledMore(rest: string, d: char)
    requires rest != "" && d != '/'
    ensures Spelled(rest + [d]) == Spelled(rest) + Open(rest) + [d] && Open(rest + [d]) == ""
  {
    OneMoreLetter(rest, d);
    var names, root := Components(rest), if Rooted(rest) then "/" else "";
    assert !EndsOpen(rest + [d]);
    if EndsOpen(rest) {
      MoreName(root, names, d);
    } else {
      var front, last := names[..|names| - 1], names[|names| - 1];
      assert names == front + [last];
      JoinedWithMore(front, last, d);
      Assoc(root, Joined(names), [d]);
      assert Open(rest) == "" && Spelled(rest) + "" == Spelled(rest);
    }
  }

  lemma MoreName(root: string, names: seq<string>, d: char)
    ensures root + Joined(names + [[d]]) == (root + Joined(names) + if names != [] then "/" else "") + [d]
  {
    JoinedWithMore(names, [], d);
    assert [] + [d] == [d];
    assert (names + [[d]])[..|names|] == names;
  }

  /** A text that ends in another letter has a name; one without names starts with a slash. */
  lemma NamesUnlessSlashes(p: string)
    requires p != ""
    ensures !EndsOpen(p) ==> Components(p) != []
    ensures Components(p) == [] ==> Rooted(p)
  {
    var parts := Split(p, '/');
    LastPiece(p);
    assert parts == parts[..|parts| - 1] + [parts[|parts| - 1]];
    AtEnd(parts[..|parts| - 1], parts[|parts| - 1]);
    if !Rooted(p) {
      assert parts[0] != "";
    }
  }

  /** The normal spelling is the names with single slashes between them, from the root or not. */
  lemma NormalSpelling(p: string)
    ensures NormalizeSyntax(p) == Spelled(p)
  {
    CollapsedSpelling(p);
    var names := Components(p);
    if names == [] {
      assert |Spelled(p)| <= 1;
    } else {
      LastName(p);
      assert Spelled(p)[|Spelled(p)| - 1] == Joined(names)[|Joined(names)| - 1];
      if EndsOpen(p) {
        assert (Spelled(p) + "/")[..|Spelled(p)|] == Spelled(p);
      }
    }
  }

  lemma {:induction false} NonEmptyAre(parts: seq<string>)
    requires forall i :: 0 <= i < |parts| ==> '/' !in parts[i]
    ensures forall i :: 0 <= i < |NonEmpty(parts)| ==> NonEmpty(parts)[i] != "" && '/' !in NonEmpty(parts)[i]
  {
    if |parts| > 0 {
      NonEmptyAre(parts[1..]);
    }
  }

  lemma LastName(p: string)
    requires Components(p) != []
    ensures var joined := Joined(Components(p)); joined != "" && joined[|joined| - 1] != '/'
  {
    NonEmptyAre(Split(p, '/'));
    var names := Components(p);
    var front, last := names[..|names| - 1], names[|names| - 1];
    assert last != "" && last[|last| - 1] != '/';
    assert names == front + [last];
    JoinedWithMore(front, last, '/');
  }
}

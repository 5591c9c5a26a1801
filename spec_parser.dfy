/**
 The identifier parser at the head of `fetchVersion`: a raw package
 identifier such as "@ng-select/ng-select/8.3.0", "expr-eval/latest" or
 "sweetalert2" is split on '/' and mapped to a (package name, tag) pair.
 */
module SpecParser {

  /** The configured identifiers, in display order. */
  const Packages: seq<string> := ["expr-eval/latest", "@ng-select/ng-select/8.3.0", "sweetalert2/11.10.1"]

  /** The parser's result: the canonical package name and the version tag. */
  datatype PackageSpec = PackageSpec(name: string, tag: string)

  predicate NoSlash(s: string) {
    forall k :: 0 <= k < |s| ==> s[k] != '/'
  }

  /** How many separators the identifier holds. */
  function SlashCount(s: string): nat {
    if |s| == 0 then 0
    else SlashCount(s[1..]) + (if s[0] == '/' then 1 else 0)
  }

  /**
   Go's `strings.Split(s, "/")`, written as a scan from the front: one more
   piece than there are separators, so never an empty slice.
   */
  function Split(s: string): (parts: seq<string>)
    ensures |parts| == SlashCount(s) + 1
  {
    if |s| == 0 then [""]
    else if s[0] == '/' then [""] + Split(s[1..])
    else
      var rest := Split(s[1..]);
      [[s[0]] + rest[0]] + rest[1..]
  }

  predicate AllNoSlash(parts: seq<string>) {
    forall i :: 0 <= i < |parts| ==> NoSlash(parts[i])
  }

  /** Go's `strings.Join(parts, "/")`. */
  function Join(parts: seq<string>): string {
    if |parts| == 0 then ""
    else if |parts| == 1 then parts[0]
    else parts[0] + "/" + Join(parts[1..])
  }

  /** Go's `strings.HasPrefix(s, "@")`: the identifier names a scoped package. */
  predicate IsScoped(s: string) {
    |s| > 0 && s[0] == '@'
  }

  /** `head` is all of `s`, or the part of `s` before one of its separators. */
  predicate IsLeadingPath(head: string, s: string) {
    |head| <= |s| && s[..|head|] == head && (|head| == |s| || s[|head|] == '/')
  }

  /**
   The three ordered branches of the parser. Whichever is taken, the tag
   holds no separator; an identifier without a separator is the name at tag
   "latest"; any other identifier starts with "name/tag", followed by
   nothing or by a separator.
   */
  function Parse(pkg: string): (r: PackageSpec)
    ensures NoSlash(r.tag)
    ensures NoSlash(pkg) ==> r == PackageSpec(pkg, "latest")
    ensures !NoSlash(pkg) ==> IsLeadingPath(r.name + "/" + r.tag, pkg)
  {
    ParseShape(pkg);
    var parts := Split(pkg);
    if IsScoped(pkg) && |parts| >= 3 then
      PackageSpec(Join(parts[..2]), parts[2])
    else if |parts| >= 2 then
      PackageSpec(Join(parts[..|parts| - 1]), parts[|parts| - 1])
    else
      PackageSpec(pkg, "latest")
  }

  // ---------------------------------------------------------------------
  // Split and Join

  /** Splitting at one separator splits both halves independently. */
  lemma {:induction false} SplitAround(a: string, b: string)
    ensures Split(a + "/" + b) == Split(a) + Split(b)
  {
    if |a| == 0 {
      assert a + "/" + b == "/" + b;
      assert ("/" + b)[1..] == b;
    } else {
      assert (a + "/" + b)[0] == a[0];
      assert (a + "/" + b)[1..] == a[1..] + "/" + b;
      SplitAround(a[1..], b);
    }
  }

  /** Every piece of a split is free of separators. */
  lemma {:induction false} SplitPartsNoSlash(s: string)
    ensures forall i :: 0 <= i < |Split(s)| ==> NoSlash(Split(s)[i])
  {
    if |s| > 0 {
      SplitPartsNoSlash(s[1..]);
    }
  }

  /** Joining the pieces rebuilds the identifier. */
  lemma {:induction false} JoinSplit(s: string)
    ensures Join(Split(s)) == s
  {
    if |s| == 0 {
    } else if s[0] == '/' {
      JoinSplit(s[1..]);
      assert s == "" + "/" + s[1..];
    } else {
      JoinSplit(s[1..]);
      JoinFront(s[0], Split(s[1..]));
      assert [s[0]] + s[1..] == s;
    }
  }

  /** Putting one more character in front of the first piece. */
  lemma JoinFront(c: char, rest: seq<string>)
    requires |rest| >= 1
    ensures Join([[c] + rest[0]] + rest[1..]) == [c] + Join(rest)
  {
    var p := [[c] + rest[0]] + rest[1..];
    assert p[0] == [c] + rest[0] && p[1..] == rest[1..] && |p| == |rest|;
    if |rest| >= 2 {
      JoinCons(p);
      JoinCons(rest);
      Regroup([c], rest[0], Join(rest[1..]));
    }
  }

  lemma Regroup(a: string, b: string, c: string)
    ensures a + b + "/" + c == a + (b + "/" + c)
  {
  }

  /** Splitting the join of separator-free pieces gives the same pieces back. */
  lemma {:induction false} SplitJoin(parts: seq<string>)
    requires |parts| >= 1 && AllNoSlash(parts)
    ensures Split(Join(parts)) == parts
  {
    if |parts| == 1 {
      SplitOfNoSlash(parts[0]);
    } else {
      SplitJoin(parts[1..]);
      SplitAround(parts[0], Join(parts[1..]));
      SplitOfNoSlash(parts[0]);
    }
  }

  /** An identifier without a separator is a single piece. */
  lemma {:induction false} SplitOfNoSlash(s: string)
    requires NoSlash(s)
    ensures Split(s) == [s]
  {
    if |s| > 0 {
      assert s[0] != '/';
      SplitOfNoSlash(s[1..]);
      assert [s[0]] + s[1..] == s;
    }
  }

  /** A separator anywhere in the identifier yields at least two pieces. */
  lemma SplitOfSlash(s: string, k: nat)
    requires k < |s| && s[k] == '/'
    ensures |Split(s)| >= 2
  {
    assert s == s[..k] + "/" + s[k + 1..];
    SplitAround(s[..k], s[k + 1..]);
  }

  /** Join of a sequence with an extra last piece. */
  lemma {:induction false} JoinSnoc(q: seq<string>, x: string)
    requires |q| >= 1
    ensures Join(q + [x]) == Join(q) + "/" + x
  {
    if |q| == 1 {
      assert q + [x] == [q[0], x];
    } else {
      assert (q + [x])[1..] == q[1..] + [x];
      JoinSnoc(q[1..], x);
    }
  }

  /** Join of a sequence with at least two pieces, split after the first. */
  lemma JoinCons(p: seq<string>)
    requires |p| >= 2
    ensures Join(p) == p[0] + "/" + Join(p[1..])
  {
  }

  /** Join of two non-empty runs of pieces. */
  lemma {:induction false} JoinAppend(a: seq<string>, b: seq<string>)
    requires |a| >= 1 && |b| >= 1
    ensures Join(a + b) == Join(a) + "/" + Join(b)
  {
    if |a| == 1 {
      assert (a + b)[1..] == b;
    } else {
      assert (a + b)[1..] == a[1..] + b;
      JoinAppend(a[1..], b);
    }
  }

  /** The first k pieces and piece k, joined, lead the identifier up to a separator or its end. */
  lemma SplitPrefix(s: string, k: nat)
    requires 1 <= k < |Split(s)|
    ensures IsLeadingPath(Join(Split(s)[..k]) + "/" + Split(s)[k], s)
  {
    var p := Split(s);
    JoinSplit(s);
    JoinAt(p, k);
    if k + 1 < |p| {
      LeadingPathOfConcat(Join(p[..k]) + "/" + p[k], "/" + Join(p[k + 1..]));
    }
  }

  /** Join of pieces around piece k. */
  lemma JoinAt(p: seq<string>, k: nat)
    requires 1 <= k < |p|
    ensures k + 1 == |p| ==> Join(p) == Join(p[..k]) + "/" + p[k]
    ensures k + 1 < |p| ==> Join(p) == (Join(p[..k]) + "/" + p[k]) + ("/" + Join(p[k + 1..]))
  {
    PiecesAt(p, k);
    JoinSnoc(p[..k], p[k]);
    if k + 1 < |p| {
      JoinAppend(p[..k + 1], p[k + 1..]);
    }
  }

  /** A sequence of pieces around piece k. */
  lemma PiecesAt(p: seq<string>, k: nat)
    requires k < |p|
    ensures p[..k + 1] == p[..k] + [p[k]] && p == p[..k + 1] + p[k + 1..]
    ensures k + 1 == |p| ==> p[..k + 1] == p
  {
  }

  lemma LeadingPathOfConcat(head: string, tail: string)
    requires |tail| > 0 && tail[0] == '/'
    ensures IsLeadingPath(head, head + tail)
  {
    assert (head + tail)[..|head|] == head;
  }

  /** A single piece means no separator. */
  lemma SplitOne(s: string)
    requires |Split(s)| < 2
    ensures NoSlash(s)
  {
    if !NoSlash(s) {
      var k :| 0 <= k < |s| && s[k] == '/';
      SplitOfSlash(s, k);
    }
  }

  /** Several pieces mean a separator. */
  lemma SplitMany(s: string)
    requires |Split(s)| >= 2
    ensures !NoSlash(s)
  {
    if NoSlash(s) {
      SplitOfNoSlash(s);
    }
  }

  /** What each branch of Parse relies on about the pieces. */
  lemma ParseShape(pkg: string)
    ensures AllNoSlash(Split(pkg))
    ensures |Split(pkg)| < 2 <==> NoSlash(pkg)
    ensures |Split(pkg)| >= 3 ==> IsLeadingPath(Join(Split(pkg)[..2]) + "/" + Split(pkg)[2], pkg)
    ensures |Split(pkg)| >= 2 ==>
      IsLeadingPath(Join(Split(pkg)[..|Split(pkg)| - 1]) + "/" + Split(pkg)[|Split(pkg)| - 1], pkg)
  {
    var n := |Split(pkg)|;
    SplitPartsNoSlash(pkg);
    if n < 2 {
      SplitOne(pkg);
    } else {
      SplitMany(pkg);
      SplitPrefix(pkg, n - 1);
      if n >= 3 {
        SplitPrefix(pkg, 2);
      }
    }
  }

  // ---------------------------------------------------------------------
  // The three branches

  /**
   Branch 1: a scoped identifier with three or more pieces names the first
   two pieces joined by '/' and takes the third as its tag.
   */
  lemma ScopedBranch(pkg: string)
    requires IsScoped(pkg) && |Split(pkg)| >= 3
    ensures Parse(pkg).name == Split(pkg)[0] + "/" + Split(pkg)[1]
    ensures Parse(pkg).tag == Split(pkg)[2]
  {
    var p := Split(pkg);
    assert p[..2] == [p[0], p[1]];
    assert [p[0], p[1]][1..] == [p[1]];
    assert Join([p[0], p[1]]) == p[0] + "/" + p[1];
  }

  /** Branch 1 ignores any pieces after the third. */
  lemma ExtraSegmentsIgnored(pkg: string, extra: string)
    requires IsScoped(pkg) && |Split(pkg)| >= 3
    ensures Parse(pkg + "/" + extra) == Parse(pkg)
  {
    SplitAround(pkg, extra);
    var p, q := Split(pkg), Split(pkg + "/" + extra);
    assert (pkg + "/" + extra)[0] == pkg[0];
    assert q[..2] == p[..2];
    assert q[2] == p[2];
  }

  /**
   Branch 2: outside branch 1, an identifier holding a '/' names everything
   before its last '/' and takes what follows it as the tag, so that
   "name/tag" is the identifier again. This includes a two-piece scoped
   identifier such as "@scope/pkg".
   */
  lemma LastSeparatorBranch(pkg: string)
    requires !(IsScoped(pkg) && |Split(pkg)| >= 3)
    requires exists k :: 0 <= k < |pkg| && pkg[k] == '/'
    ensures Parse(pkg).name + "/" + Parse(pkg).tag == pkg
    ensures NoSlash(Parse(pkg).tag)
  {
    var k :| 0 <= k < |pkg| && pkg[k] == '/';
    SplitOfSlash(pkg, k);
    var p := Split(pkg);
    var n := |p|;
    assert p == p[..n - 1] + [p[n - 1]];
    JoinSnoc(p[..n - 1], p[n - 1]);
    JoinSplit(pkg);
    SplitPartsNoSlash(pkg);
  }

  /** Split of "a/b" for separator-free a and b. */
  lemma SplitTwo(a: string, b: string)
    requires NoSlash(a) && NoSlash(b)
    ensures Split(a + "/" + b) == [a, b]
  {
    SplitAround(a, b);
    SplitOfNoSlash(a);
    SplitOfNoSlash(b);
  }

  /** A scoped identifier of exactly three pieces. */
  lemma ScopedThree(a: string, b: string, c: string)
    requires IsScoped(a) && NoSlash(a) && NoSlash(b) && NoSlash(c)
    ensures Parse(a + "/" + b + "/" + c) == PackageSpec(a + "/" + b, c)
  {
    var pkg := a + "/" + b + "/" + c;
    SplitTwo(b, c);
    SplitAround(a, b + "/" + c);
    SplitOfNoSlash(a);
    assert pkg == a + "/" + (b + "/" + c);
    assert Split(pkg) == [a] + [b, c];
    assert pkg[0] == a[0];
    ScopedBranch(pkg);
  }

  /** The configured scoped identifier takes branch 1. */
  lemma ConfiguredScoped()
    ensures Parse(Packages[1]) == PackageSpec("@ng-select/ng-select", "8.3.0")
  {
    var a, b, c := "@ng-select", "ng-select", "8.3.0";
    assert Packages[1] == a + "/" + b + "/" + c;
    assert a + "/" + b == "@ng-select/ng-select";
    assert NoSlash(a) && NoSlash(b) && NoSlash(c);
    ScopedThree(a, b, c);
  }

  /** An identifier of exactly two `/`-free pieces `a/b` parses to (a, b), scoped or not. */
  lemma TwoPieces(a: string, b: string)
    requires NoSlash(a) && NoSlash(b)
    ensures Parse(a + "/" + b) == PackageSpec(a, b)
  {
    SplitTwo(a, b);
    assert [a, b][..1] == [a];
  }

  /** The configured identifier with an explicit "latest" tag takes branch 2. */
  lemma ConfiguredLatest()
    ensures Parse(Packages[0]) == PackageSpec("expr-eval", "latest")
  {
    assert Packages[0] == "expr-eval" + "/" + "latest";
    assert NoSlash("expr-eval") && NoSlash("latest");
    TwoPieces("expr-eval", "latest");
  }

  /** The configured unscoped identifier with a pinned version takes branch 2. */
  lemma ConfiguredPinned()
    ensures Parse(Packages[2]) == PackageSpec("sweetalert2", "11.10.1")
  {
    assert Packages[2] == "sweetalert2" + "/" + "11.10.1";
    assert NoSlash("sweetalert2") && NoSlash("11.10.1");
    TwoPieces("sweetalert2", "11.10.1");
  }

  /** A bare name without a tag, such as "sweetalert2", is looked up at "latest". */
  lemma BareNameFallsBack()
    ensures Parse("sweetalert2") == PackageSpec("sweetalert2", "latest")
  {
    assert NoSlash("sweetalert2");
  }
}

/** Resolution of symbolic links in the in-browser file system
    (src/browser/filesystem.js). */
module Symlinks {
  import opened Bits
  import opened Paths

  /** symlinks.get(path), an empty target counting as no link. */
  function Target(links: Links, path: string): string {
    if path in links then links[path] else ""
  }

  function Prefix(path: string, i: nat): string
    requires i <= |Split(path)|
  {
    Join(Split(path)[..i])
  }

  /** The shortest prefix from i components on that is a link, or one past all. */
  function FirstLink(links: Links, path: string, i: nat): (j: nat)
    requires i <= |Split(path)| + 1
    ensures i <= j <= |Split(path)| + 1
    ensures j <= |Split(path)| ==> Target(links, Prefix(path, j)) != ""
    ensures forall k | i <= k < j :: Target(links, Prefix(path, k)) == ""
    decreases |Split(path)| + 1 - i
  {
    if i == |Split(path)| + 1 || Target(links, Prefix(path, i)) != "" then i else FirstLink(links, path, i + 1)
  }

  ghost predicate LinkFree(links: Links, path: string) {
    forall i | 1 <= i <= |Split(path)| :: Target(links, Prefix(path, i)) == ""
  }

  /** The path with its first link replaced by the link's target. */
  function Expand(links: Links, path: string): string {
    var i := FirstLink(links, path, 1);
    if i > |Split(path)| then path
    else
      var target, rest := Target(links, Prefix(path, i)), Join(Split(path)[i..]);
      Normalize(if rest != "" then target + "/" + rest else target)
  }

  /** n expansions, one after the other. */
  function Expansions(links: Links, path: string, n: nat): string
    decreases n
  {
    if n == 0 then path else Expansions(links, Expand(links, path), n - 1)
  }

  lemma {:induction false} LinkFreeStays(links: Links, path: string, n: nat)
    requires LinkFree(links, path)
    ensures Expand(links, path) == path && Expansions(links, path, n) == path
    decreases n
  {
    if n > 0 { LinkFreeStays(links, path, n - 1); }
  }

  const MAX_DEPTH: nat := 40

  /** Expansion as long as there is a link, at most 41 times. */
  function Resolve(links: Links, path: string): string {
    Expansions(links, Normalize(path), 41)
  }

  method ResolvePath(links: Links, path: string, depth: nat) returns (r: string)
    requires depth <= 41
    ensures r == Expansions(links, Normalize(path), 41 - depth)
    decreases 41 - depth
  {
    hide Normalize, Split;
    var p := NormalizePath(path);
    if depth > MAX_DEPTH {
      return p;
    }
    if |links| == 0 {
      LinkFreeStays(links, p, 41 - depth);
      return p;
    }
    var parts := Split(p);
    for i := 1 to |parts| + 1
      invariant FirstLink(links, p, i) == FirstLink(links, p, 1)
    {
      var prefix := Join(parts[..i]);
      var target := Target(links, prefix);
      if target != "" {
        var rest := Join(parts[i..]);
        var resolved := if rest != "" then target + "/" + rest else target;
        NormalizeIdempotent(resolved);
        resolved := NormalizePath(resolved);
        r := ResolvePath(links, resolved, depth + 1);
        return;
      }
    }
    LinkFreeStays(links, p, 41 - depth);
    return p;
  }

  lemma {:induction false} ExpansionsAdd(links: Links, path: string, m: nat, n: nat)
    ensures Expansions(links, path, m + n) == Expansions(links, Expansions(links, path, m), n)
    decreases m
  {
    hide Expand;
    if m > 0 { ExpansionsAdd(links, Expand(links, path), m - 1, n); }
  }

  lemma {:induction false} ExpansionsNormal(links: Links, path: string, n: nat)
    requires Normalize(path) == path
    ensures Normalize(Expansions(links, path, n)) == Expansions(links, path, n)
    decreases n
  {
    if n > 0 {
      ExpandNormal(links, path);
      hide Expand, Normalize;
      ExpansionsNormal(links, Expand(links, path), n - 1);
    }
  }

  lemma ExpandNormal(links: Links, path: string)
    requires Normalize(path) == path
    ensures Normalize(Expand(links, path)) == Expand(links, path)
  {
    hide Normalize, FirstLink, Split;
    var i := FirstLink(links, path, 1);
    if i <= |Split(path)| {
      var target, rest := Target(links, Prefix(path, i)), Join(Split(path)[i..]);
      NormalizeIdempotent(if rest != "" then target + "/" + rest else target);
    }
  }

  // ----- when the result has no link, by a lookup of one component at a time -----

  /** The path named by clean components. */
  function Name(c: seq<string>): string {
    "/" + Join(c)
  }

  /** Looking up `rest` below the directory `at`, one component at a time and going
      back to the root at each link, comes to an end after at most `hops` links. */
  predicate WalkEnds(links: Links, at: seq<string>, rest: seq<string>, hops: nat)
    decreases hops, |rest|
  {
    if rest == [] then
      at != [] || Target(links, "/") == ""
      || (hops > 0 && WalkEnds(links, [], Components(Target(links, "/")), hops - 1))
    else
      var next := at + [rest[0]];
      var target := Target(links, Name(next));
      if target == "" then WalkEnds(links, next, rest[1..], hops)
      else hops > 0 && WalkEnds(links, [], Components(target) + rest[1..], hops - 1)
  }

  /** The prefixes of a normalised path: the empty one, then one for each component. */
  lemma PrefixesOf(c: seq<string>)
    requires Clean(c)
    ensures |Split(Name(c))| == if c == [] then 2 else |c| + 1
    ensures Prefix(Name(c), 1) == ""
    ensures c == [] ==> Prefix(Name(c), 2) == "/"
    ensures forall i | 1 <= i <= |c| :: Prefix(Name(c), i + 1) == Name(c[..i])
    ensures forall i | 1 <= i <= |c| :: Join(Split(Name(c))[i + 1..]) == Join(c[i..])
  {
    hide Components;
    NameParts(c);
    assert Split(Name(c))[..1] == [""];
    if c == [] {
      assert Split(Name(c))[..2] == ["", ""];
      assert Join(["", ""]) == "" + "/" + Join([""]);
    }
    forall i | 1 <= i <= |c| ensures Prefix(Name(c), i + 1) == Name(c[..i]) && Split(Name(c))[i + 1..] == c[i..] {
      assert Split(Name(c))[..i + 1] == [""] + c[..i];
      assert ([""] + c[..i])[1..] == c[..i];
    }
  }

  lemma NameParts(c: seq<string>)
    requires Clean(c)
    ensures Split(Name(c)) == [""] + if c == [] then [""] else c
  {
    SplitConcat("", Join(c));
    assert "" + "/" + Join(c) == Name(c);
    if c != [] { SplitJoin(c); }
  }

  /** No directory on the way to `at` is a link. */
  ghost predicate NoLinkTo(links: Links, at: seq<string>) {
    forall i | 1 <= i <= |at| :: Target(links, Name(at[..i])) == ""
  }

  lemma LinkFreeName(links: Links, c: seq<string>)
    requires Clean(c)
    ensures LinkFree(links, Name(c)) <==>
      Target(links, "") == "" && NoLinkTo(links, c) && (c == [] ==> Target(links, "/") == "")
  {
    hide Split, Join, Name, Target;
    PrefixesOf(c);
    if LinkFree(links, Name(c)) {
      forall i | 1 <= i <= |c| ensures Target(links, Name(c[..i])) == "" {
        assert Target(links, Prefix(Name(c), i + 1)) == "";
      }
    }
    if Target(links, "") == "" && NoLinkTo(links, c) && (c == [] ==> Target(links, "/") == "") {
      forall i | 1 <= i <= |Split(Name(c))| ensures Target(links, Prefix(Name(c), i)) == "" {
        if i >= 2 && c != [] { assert Prefix(Name(c), (i - 1) + 1) == Name(c[..i - 1]); }
      }
    }
  }

  /** Expansion replaces the first link of the path by the components of its target. */
  lemma ExpandAt(links: Links, at: seq<string>, rest: seq<string>)
    requires Clean(at + rest) && Target(links, "") == "" && NoLinkTo(links, at)
    requires rest != [] && Target(links, Name(at + [rest[0]])) != ""
    ensures Expand(links, Name(at + rest)) == Name(Components(Target(links, Name(at + [rest[0]]))) + rest[1..])
  {
    hide Split, Join, Target, Components;
    var c, n := at + rest, |at| + 1;
    var path := Name(c);
    PrefixesOf(c);
    assert c[..n] == at + [rest[0]] && c[n..] == rest[1..];
    forall k | 1 <= k <= n ensures Target(links, Prefix(path, k)) == "" {
      if k > 1 {
        assert Prefix(path, (k - 1) + 1) == Name(c[..k - 1]);
        assert c[..k - 1] == at[..k - 1];
      }
    }
    CleanParts(at, rest, []);
    assert [] + rest[1..] == rest[1..];
    assert FirstLink(links, path, 1) == n + 1;
    Follow(Target(links, Name(c[..n])), rest[1..]);
  }

  /** The components of a target with the rest of the path behind it. */
  lemma Follow(target: string, rest: seq<string>)
    requires Clean(rest)
    ensures Normalize(if Join(rest) != "" then target + "/" + Join(rest) else target) == Name(Components(target) + rest)
  {
    if rest == [] {
      assert Components(target) + rest == Components(target);
    } else {
      JoinNotEmpty(rest);
      SplitJoin(rest);
      SplitConcat(target, Join(rest));
      ClimbConcat([], Split(target), rest);
      ClimbIdle(Components(target), rest);
    }
  }

  lemma JoinNotEmpty(c: seq<string>)
    requires c != [] && Clean(c)
    ensures Join(c) != ""
  {
    assert c[0] in c;
  }

  lemma NormalizeIsName(path: string)
    ensures Normalize(path) == Name(Components(path))
  {
  }

  lemma ExpandRoot(links: Links)
    requires Target(links, "") == "" && Target(links, "/") != ""
    ensures Expand(links, Name([])) == Name(Components(Target(links, "/")))
  {
    hide Components, Normalize;
    PrefixesOf([]);
    assert Name([]) == "/";
    assert FirstLink(links, "/", 1) == 2;
    assert Join(Split("/")[2..]) == "";
    NormalizeIsName(Target(links, "/"));
  }

  lemma {:induction false} WalkIsExpansion(links: Links, at: seq<string>, rest: seq<string>, hops: nat)
    requires Clean(at + rest) && Target(links, "") == "" && NoLinkTo(links, at)
    ensures LinkFree(links, Expansions(links, Name(at + rest), hops)) <==> WalkEnds(links, at, rest, hops)
    decreases hops, |rest|
  {
    hide LinkFree, Name, Split, Join, Target, Components, Expand;
    LinkFreeName(links, at + rest);
    if rest == [] {
      assert at + rest == at;
      if at != [] || Target(links, "/") == "" {
        LinkFreeStays(links, Name(at), hops);
      } else if hops > 0 {
        ExpandRoot(links);
        ComponentsClean(Target(links, "/"));
        var c := Components(Target(links, "/"));
        assert [] + c == c;
        WalkIsExpansion(links, [], c, hops - 1);
      }
    } else {
      var next := at + [rest[0]];
      assert (at + rest)[..|at| + 1] == next;
      if Target(links, Name(next)) == "" {
        assert next + rest[1..] == at + rest;
        NoLinkGrows(links, at, rest[0]);
        WalkIsExpansion(links, next, rest[1..], hops);
      } else if hops > 0 {
        ExpandAt(links, at, rest);
        var c := Components(Target(links, Name(next)));
        ComponentsClean(Target(links, Name(next)));
        assert [] + (c + rest[1..]) == c + rest[1..];
        CleanParts(at, rest, c);
        WalkIsExpansion(links, [], c + rest[1..], hops - 1);
      }
    }
  }

  lemma NoLinkGrows(links: Links, at: seq<string>, p: string)
    requires NoLinkTo(links, at) && Target(links, Name(at + [p])) == ""
    ensures NoLinkTo(links, at + [p])
  {
    hide Name, Target;
    forall i | 1 <= i <= |at| + 1 ensures Target(links, Name((at + [p])[..i])) == "" {
      assert (at + [p])[..i] == if i <= |at| then at[..i] else at + [p];
    }
  }

  lemma CleanParts(at: seq<string>, rest: seq<string>, c: seq<string>)
    requires rest != [] && Clean(at + rest) && Clean(c)
    ensures Clean(c + rest[1..])
  {
    forall p | p in c + rest[1..] ensures p in c || p in at + rest {
    }
  }

  /** For every set of links and every path: the result has no link in it exactly when
      the lookup of its components follows at most 41 links. (The empty string is a
      prefix of every path.) */
  lemma LinkFreeIff(links: Links, path: string)
    ensures LinkFree(links, Resolve(links, path))
       <==> Target(links, "") == "" && WalkEnds(links, [], Components(path), 41)
  {
    hide Expansions, Expand, Components, Target, WalkEnds, Split, Join;
    NormalizeIdempotent(path);
    ExpansionsNormal(links, Normalize(path), 41);
    ComponentsClean(path);
    var c := Components(path);
    assert [] + c == c;
    if Target(links, "") == "" {
      WalkIsExpansion(links, [], c, 41);
    } else {
      EmptyPrefix(links, Resolve(links, path));
    }
  }

  lemma EmptyPrefix(links: Links, path: string)
    requires Target(links, "") != "" && Normalize(path) == path
    ensures !LinkFree(links, path)
  {
    ComponentsClean(path);
    PrefixesOf(Components(path));
  }

  /** Every target leads to a path without links. */
  ghost predicate Flat(links: Links) {
    forall k | k in links && links[k] != "" :: LinkFree(links, Normalize(links[k]))
  }

  /** Walking down components that are no links changes nothing. */
  lemma {:induction false} WalkPasses(links: Links, at: seq<string>, c: seq<string>, rest: seq<string>, hops: nat)
    requires NoLinkTo(links, at + c)
    ensures WalkEnds(links, at, c + rest, hops) == WalkEnds(links, at + c, rest, hops)
    decreases |c|
  {
    hide Name, Target;
    if c == [] {
      assert at + c == at && c + rest == rest;
    } else {
      var next := at + [c[0]];
      assert (at + c)[..|at| + 1] == next && next + c[1..] == at + c;
      assert (c + rest)[0] == c[0] && (c + rest)[1..] == c[1..] + rest;
      WalkPasses(links, next, c[1..], rest, hops);
    }
  }

  lemma FlatTarget(links: Links, key: string)
    requires Flat(links) && Target(links, key) != ""
    ensures Target(links, "") == "" && NoLinkTo(links, Components(Target(links, key)))
    ensures Components(Target(links, key)) == [] ==> Target(links, "/") == ""
  {
    hide Components;
    ComponentsClean(Target(links, key));
    assert Normalize(links[key]) == Name(Components(links[key]));
    LinkFreeName(links, Components(links[key]));
  }

  /** With such links each one followed uses up a component of the path. */
  lemma {:induction false} FlatWalkEnds(links: Links, at: seq<string>, rest: seq<string>, hops: nat)
    requires Flat(links) && |rest| <= hops && (at == [] && rest == [] ==> Target(links, "/") == "")
    ensures WalkEnds(links, at, rest, hops)
    decreases |rest|
  {
    hide Name, Target, Components, Flat, NoLinkTo;
    if rest != [] {
      var next := at + [rest[0]];
      var target := Target(links, Name(next));
      if target == "" {
        FlatWalkEnds(links, next, rest[1..], hops);
      } else {
        var c := Components(target);
        FlatTarget(links, Name(next));
        assert [] + c == c;
        WalkPasses(links, [], c, rest[1..], hops - 1);
        FlatWalkEnds(links, c, rest[1..], hops - 1);
      }
    }
  }

  /** So when no target leads through a link, a path of at most 41 components always
      resolves to one without links. */
  lemma FlatResolves(links: Links, path: string)
    requires Flat(links) && |Components(path)| <= 41
    ensures LinkFree(links, Resolve(links, path))
  {
    hide LinkFree, Resolve, Components, Target, Flat, NoLinkTo;
    var c := Components(path);
    LinkFreeIff(links, path);
    if Target(links, "") != "" { FlatTarget(links, ""); }
    if c != [] || Target(links, "/") == "" {
      FlatWalkEnds(links, [], c, 41);
    } else {
      var t := Components(Target(links, "/"));
      FlatTarget(links, "/");
      assert [] + t == t && t + [] == t;
      WalkPasses(links, [], t, [], 40);
      FlatWalkEnds(links, t, [], 40);
    }
  }

  function Copies(n: nat): (c: seq<string>)
    ensures |c| == n
  {
    if n == 0 then [] else ["a"] + Copies(n - 1)
  }

  /** The bound is tight: with /a a link to the root, n times a takes n links. */
  lemma {:induction false} CopiesWalk(links: Links, n: nat, hops: nat)
    requires links == map["/a" := "/"]
    ensures WalkEnds(links, [], Copies(n), hops) <==> n <= hops
    decreases n
  {
    hide Components;
    RootHasNoComponents();
    assert Join(["a"]) == "a" && Name([] + ["a"]) == "/a";
    if n > 0 {
      assert Copies(n)[1..] == Copies(n - 1) && Components("/") + Copies(n - 1) == Copies(n - 1);
      if hops > 0 { CopiesWalk(links, n - 1, hops - 1); }
    }
  }

  lemma RootHasNoComponents()
    ensures Components("/") == []
  {
    assert "/" + Join([]) == "/";
    ComponentsOfJoin([]);
  }

  lemma {:induction false} CopiesClean(n: nat)
    ensures Clean(Copies(n))
  {
    if n > 0 { CopiesClean(n - 1); }
  }

  lemma CopiesResolve(links: Links, n: nat)
    requires links == map["/a" := "/"]
    ensures LinkFree(links, Resolve(links, Name(Copies(n)))) <==> n <= 41
  {
    hide LinkFree, Resolve, Components, WalkEnds, Copies;
    CopiesClean(n);
    ComponentsOfJoin(Copies(n));
    LinkFreeIff(links, Name(Copies(n)));
    CopiesWalk(links, n, 41);
  }

  // ----- when resolving again changes nothing -----

  lemma ResultNormal(links: Links, path: string)
    ensures Normalize(Resolve(links, path)) == Resolve(links, path)
    ensures Resolve(links, Resolve(links, path)) == Expansions(links, Resolve(links, path), 41)
  {
    hide Normalize, Expand, Expansions;
    NormalizeIdempotent(path);
    ExpansionsNormal(links, Normalize(path), 41);
  }

  /** Expansion comes back to r after n steps, and not before. */
  ghost predicate Cycle(links: Links, r: string, n: nat) {
    n > 0 && Expansions(links, r, n) == r && forall m | 0 < m < n :: Expansions(links, r, m) != r
  }

  lemma {:induction false} Shortest(links: Links, r: string, n: nat) returns (m: nat)
    requires n > 0 && Expansions(links, r, n) == r
    ensures m <= n && Cycle(links, r, m)
    decreases n
  {
    hide Expansions;
    m := n;
    if !Cycle(links, r, n) {
      var k :| 0 < k < n && Expansions(links, r, k) == r;
      m := Shortest(links, r, k);
    }
  }

  /** Expansion comes back to r after a multiple of the length of its cycle only. */
  lemma {:induction false} PeriodDivides(links: Links, r: string, m: nat, n: nat)
    requires Cycle(links, r, m)
    ensures Expansions(links, r, n) == r <==> n % m == 0
    decreases n
  {
    if n >= m {
      hide Expand, Expansions;
      ExpansionsAdd(links, r, m, n - m);
      PeriodDivides(links, r, m, n - m);
      OneTurnLess(n, m);
    } else if n > 0 {
      ModUnique(n, m, 0, n);
    }
  }

  lemma OneTurnLess(n: nat, m: nat)
    requires 0 < m <= n
    ensures (n - m) % m == 0 <==> n % m == 0
  {
    DivMod(n, m);
    Distribute(n / m, 1, m);
    ModUnique(n - m, m, n / m - 1, n % m);
  }

  /** 41, the number of expansions, is prime. */
  lemma LimitIsPrime(m: nat)
    requires 0 < m
    ensures 41 % m == 0 <==> m == 1 || m == 41
  {
    var q := 41 / m;
    DivMod(41, m);
    if m > 41 {
      ModUnique(41, m, 0, 41);
    } else if m > 6 {
      if q > 5 { AtLeastOnce(q - 5, m); Distribute(q, 5, m); }
      assert q == 0 || q == 1 || q == 2 || q == 3 || q == 4 || q == 5;
    } else {
      assert m == 1 || m == 2 || m == 3 || m == 4 || m == 5 || m == 6;
    }
  }

  /** Resolving a result again changes nothing exactly when expansion leaves it alone or
      comes back to it after 41 steps and not before. */
  lemma ResolveAgainIff(links: Links, path: string)
    ensures var r := Resolve(links, path);
      Resolve(links, r) == r <==> Cycle(links, r, 1) || Cycle(links, r, 41)
  {
    hide Normalize, Expand, Expansions, Resolve;
    var r := Resolve(links, path);
    ResultNormal(links, path);
    if Expansions(links, r, 41) == r {
      var m := Shortest(links, r, 41);
      PeriodDivides(links, r, m, 41);
      LimitIsPrime(m);
    }
    if Cycle(links, r, 1) {
      PeriodDivides(links, r, 1, 41);
      LimitIsPrime(1);
    }
  }

  /** Expansion leaves a path alone exactly when it has no link in it, or its first link
      is a link to itself. */
  lemma ExpandStays(links: Links, path: string)
    requires Normalize(path) == path
    ensures Cycle(links, path, 1) <==> Expand(links, path) == path
    ensures var i := FirstLink(links, path, 1);
      Expand(links, path) == path <==>
        || LinkFree(links, path)
        || (i <= |Split(path)| && Normalize(Target(links, Prefix(path, i))) == Normalize(Prefix(path, i)))
  {
    assert Expansions(links, path, 1) == Expand(links, path);
    var c := Components(path);
    ComponentsClean(path);
    hide Components, Split, Join, Expansions, Target, Name;
    var i := FirstLink(links, path, 1);
    if i <= |Split(path)| {
      NormalizeIsName(path);
      PrefixesOf(c);
      FirstLinkStays(links, c, i);
    }
  }

  lemma FirstLinkStays(links: Links, c: seq<string>, i: nat)
    requires Clean(c) && i == FirstLink(links, Name(c), 1) <= |Split(Name(c))|
    ensures Expand(links, Name(c)) == Name(c) <==>
      Normalize(Target(links, Prefix(Name(c), i))) == Normalize(Prefix(Name(c), i))
  {
    hide Components, Split, Join, Target, FirstLink;
    var t := Target(links, Prefix(Name(c), i));
    var n := if c == [] then 0 else i - 1;
    PrefixesOf(c);
    AfterPrefix(c, i);
    CleanSlices(c, n);
    Follow(t, c[n..]);
    ComponentsClean(t);
    ComponentsOfName(c);
    ComponentsOfName(Components(t) + c[n..]);
    ComponentsOfName(c[..n]);
    ComponentsOfName(Components(t));
    NormalizeIsName(t);
    NormalizeIsName(Prefix(Name(c), i));
    assert c == c[..n] + c[n..];
    assert Components(t) + c[n..] == c <==> Components(t) == c[..n] by {
      if Components(t) + c[n..] == c { assert Components(t) == c[..|Components(t)|]; }
    }
  }

  /** The link at prefix i takes up the first i - 1 components, the rest comes behind. */
  lemma AfterPrefix(c: seq<string>, i: nat)
    requires Clean(c) && 1 <= i <= |Split(Name(c))|
    ensures var n := if c == [] then 0 else i - 1;
      n <= |c| && Join(Split(Name(c))[i..]) == Join(c[n..]) && Components(Prefix(Name(c), i)) == c[..n]
  {
    PrefixesOf(c);
    NameParts(c);
    var n := if c == [] then 0 else i - 1;
    hide Components;
    RootHasNoComponents();
    if i == 1 {
      assert Components("") == [] by { NoComponents(); }
      assert Split(Name(c))[1..] == if c == [] then [""] else c;
      assert c[0..] == c;
    } else if c != [] {
      CleanSlices(c, n);
      ComponentsOfName(c[..n]);
      assert Prefix(Name(c), n + 1) == Name(c[..n]);
    } else {
      assert Split(Name(c))[2..] == [];
    }
  }

  lemma CleanSlices(c: seq<string>, n: nat)
    requires Clean(c) && n <= |c|
    ensures Clean(c[..n]) && Clean(c[n..])
  {
    forall p | p in c[..n] || p in c[n..] ensures p in c {
    }
  }

  lemma NoComponents()
    ensures Components("") == []
  {
  }

  lemma ComponentsOfName(c: seq<string>)
    requires Clean(c)
    ensures Components(Name(c)) == c
  {
    ComponentsOfJoin(c);
  }

  /** A result without links is left alone, and so is a link to itself. */
  lemma ResolveAgain(links: Links, path: string)
    requires LinkFree(links, Resolve(links, path))
    ensures Resolve(links, Resolve(links, path)) == Resolve(links, path)
  {
    hide LinkFree, Normalize, Expand, Expansions;
    ResultNormal(links, path);
    LinkFreeStays(links, Resolve(links, path), 41);
  }

  lemma SelfLink(links: Links)
    requires links == map["/a" := "/a"]
    ensures Resolve(links, "/a") == "/a" && !LinkFree(links, "/a") && Cycle(links, "/a", 1)
  {
    hide FirstLink, Split, Join, Normalize;
    assert "/" + "a" == "/a";
    Named("a");
    OneLink(links, "a", "a");
    ExpandStays(links, "/a");
    assert Target(links, Prefix("/a", 2)) == "/a";
    hide Expand, Expansions;
    PeriodDivides(links, "/a", 1, 41);
    LimitIsPrime(1);
  }

  /** The path of one clean component. */
  lemma Named(c: string)
    requires Clean([c])
    ensures Split("/" + c) == ["", c] && Normalize("/" + c) == "/" + c
    ensures Prefix("/" + c, 1) == "" && Prefix("/" + c, 2) == "/" + c
  {
    assert Join([c]) == c && Join([""]) == "" && Join(["", c]) == "/" + c;
    SplitConcat("", c);
    assert "" + "/" + c == "/" + c;
    SplitPlain("");
    assert c in [c];
    SplitPlain(c);
    ComponentsOfJoin([c]);
    assert Split("/" + c)[..1] == [""] && Split("/" + c)[..2] == ["", c];
  }

  lemma OneLink(links: Links, c: string, d: string)
    requires Clean([c]) && Clean([d]) && "" !in links && Target(links, "/" + c) == "/" + d
    ensures Expand(links, "/" + c) == "/" + d
  {
    Named(c);
    Named(d);
    assert FirstLink(links, "/" + c, 1) == 2;
    assert Join(Split("/" + c)[2..]) == "";
  }

  // ----- links in a ring -----

  /** A name of n + 1 letters. */
  function Letters(n: nat): (p: string)
    ensures |p| == n + 1 && forall c | c in p :: c == 'a'
  {
    if n == 0 then "a" else "a" + Letters(n - 1)
  }

  lemma LettersClean(n: nat)
    ensures Clean([Letters(n)])
  {
    assert Letters(n)[0] in Letters(n);
  }

  /** The first k of n links, each to the next and the last to the first. */
  function RingLinks(n: nat, k: nat): Links
    requires k <= n
  {
    if k == 0 then map[] else RingLinks(n, k - 1)["/" + Letters(k - 1) := "/" + Letters(k % n)]
  }

  lemma {:induction false} RingTarget(n: nat, k: nat, i: nat)
    requires i < k <= n
    ensures Target(RingLinks(n, k), "/" + Letters(i)) == "/" + Letters((i + 1) % n)
    ensures "" !in RingLinks(n, k)
  {
    hide Letters;
    if i < k - 1 {
      assert |"/" + Letters(i)| != |"/" + Letters(k - 1)|;
      RingTarget(n, k - 1, i);
    } else {
      NoEmptyKey(n, k);
    }
  }

  lemma {:induction false} NoEmptyKey(n: nat, k: nat)
    requires k <= n
    ensures "" !in RingLinks(n, k)
  {
    hide Letters;
    if k > 0 { NoEmptyKey(n, k - 1); }
  }

  lemma {:induction false} RingExpands(n: nat, i: nat, m: nat)
    requires i < n
    ensures Expansions(RingLinks(n, n), "/" + Letters(i), m) == "/" + Letters((i + m) % n)
    decreases m
  {
    hide Expand, RingLinks, Letters;
    if m == 0 {
      ModUnique(i, n, 0, i);
    } else {
      RingTarget(n, n, i);
      LettersClean(i);
      LettersClean((i + 1) % n);
      OneLink(RingLinks(n, n), Letters(i), Letters((i + 1) % n));
      RingExpands(n, (i + 1) % n, m - 1);
      ModShift(i + 1, m - 1, n);
    }
  }

  lemma ModShift(t: nat, i: nat, n: nat)
    requires n > 0
    ensures (t % n + i) % n == (t + i) % n
  {
    DivMod(t, n);
    DivMod(t + i, n);
    var q := (t + i) / n - t / n;
    Distribute((t + i) / n, t / n, n);
    ModUnique(t % n + i, n, q, (t + i) % n);
  }

  /** Of n links in a ring the result is always a link; resolving it again gives the
      same path only when there is one link, or there are 41. */
  lemma RingResolves(n: nat)
    requires n > 0
    ensures var links, r := RingLinks(n, n), "/" + Letters(41 % n);
      && Resolve(links, "/" + Letters(0)) == r && !LinkFree(links, r)
      && (Resolve(links, r) == r <==> n == 1 || n == 41)
  {
    hide RingLinks, Letters, Expansions, Expand, Normalize, LinkFree;
    var i := 41 % n;
    LettersClean(0);
    LettersClean(i);
    Named(Letters(0));
    Named(Letters(i));
    RingExpands(n, 0, 41);
    RingExpands(n, i, 41);
    RingHasLink(n, i);
    Returns(i, n);
    LimitIsPrime(n);
    assert |"/" + Letters(i)| == |"/" + Letters((i + 41) % n)| <==> i == (i + 41) % n;
  }

  lemma RingHasLink(n: nat, i: nat)
    requires i < n
    ensures !LinkFree(RingLinks(n, n), "/" + Letters(i))
  {
    hide RingLinks, Letters;
    RingTarget(n, n, i);
    LettersClean(i);
    Named(Letters(i));
    assert Target(RingLinks(n, n), Prefix("/" + Letters(i), 2)) != "";
  }

  lemma Returns(i: nat, n: nat)
    requires i < n
    ensures (i + 41) % n == i <==> 41 % n == 0
  {
    DivMod(41, n);
    DivMod(i + 41, n);
    if 41 % n == 0 { Distribute(41 / n, 0, n); ModUnique(i + 41, n, 41 / n, i); }
    if (i + 41) % n == i { ModUnique(41, n, (i + 41) / n, 0); }
  }

  /** Two links to each other: resolving one gives the other, and that the first. */
  lemma TwoCycle(links: Links)
    requires links == map["/a" := "/aa", "/aa" := "/a"]
    ensures Resolve(links, "/a") == "/aa" && Resolve(links, "/aa") == "/a" && !LinkFree(links, "/aa")
  {
    hide Expand, Expansions, LinkFree, Split, Join, Normalize;
    assert Letters(0) == "a" && Letters(1) == "aa" && "/" + "a" == "/a" && "/" + "aa" == "/aa";
    assert (0 + 41) % 2 == 1 && (1 + 41) % 2 == 0;
    assert RingLinks(2, 2) == links;
    Named("a");
    Named("aa");
    RingExpands(2, 0, 41);
    RingExpands(2, 1, 41);
    RingHasLink(2, 1);
  }

  // ----- relative targets -----

  /** The first n from which c[..n] is a link, or one past all. */
  function LinkFrom(links: Links, c: seq<string>, n: nat): (m: nat)
    requires 1 <= n <= |c| + 1
    ensures n <= m <= |c| + 1
    ensures m <= |c| ==> Target(links, Name(c[..m])) != ""
    ensures forall k | n <= k < m :: Target(links, Name(c[..k])) == ""
    decreases |c| + 1 - n
  {
    if n == |c| + 1 || Target(links, Name(c[..n])) != "" then n else LinkFrom(links, c, n + 1)
  }

  predicate Absolute(target: string) {
    target != "" && target[0] == '/'
  }

  /** A step of the usual lookup: a relative target starts in the directory that holds
      the link. */
  function UsualStep(links: Links, c: seq<string>): seq<string> {
    var n := LinkFrom(links, c, 1);
    if n > |c| then c
    else
      var target := Target(links, Name(c[..n]));
      Climb(if Absolute(target) then [] else c[..n - 1], Split(target)) + c[n..]
  }

  function UsualSteps(links: Links, c: seq<string>, n: nat): seq<string>
    decreases n
  {
    if n == 0 then c else UsualSteps(links, UsualStep(links, c), n - 1)
  }

  ghost predicate SameStep(links: Links, c: seq<string>) {
    Expand(links, Name(c)) == Name(UsualStep(links, c))
  }

  /** The target names the same path from the link's directory as from the root. */
  predicate Unmoved(dir: seq<string>, target: string) {
    Absolute(target) || Climb(dir, Split(target)) == Components(target)
  }

  /** If dir/name is a link that can be reached without following another, its target
      does not depend on where it starts. */
  ghost predicate LinkUnmoved(links: Links, dir: seq<string>, name: string) {
    Clean(dir + [name]) && NoLinkTo(links, dir) && Target(links, Name(dir + [name])) != "" ==>
      Unmoved(dir, Target(links, Name(dir + [name])))
  }

  lemma NoLinkBefore(links: Links, c: seq<string>)
    ensures NoLinkTo(links, c[..LinkFrom(links, c, 1) - 1])
  {
    hide Target, Name;
    var before := c[..LinkFrom(links, c, 1) - 1];
    forall k | 1 <= k <= |before| ensures Target(links, Name(before[..k])) == "" {
      assert before[..k] == c[..k];
    }
  }

  lemma ExpandIsStep(links: Links, c: seq<string>)
    requires Clean(c) && Target(links, "") == "" && Target(links, "/") == ""
    ensures var n := LinkFrom(links, c, 1);
      Expand(links, Name(c)) == Name(if n > |c| then c else Components(Target(links, Name(c[..n]))) + c[n..])
  {
    hide Components, Target, Name, Expand, LinkFree, NoLinkTo, LinkFrom;
    var n := LinkFrom(links, c, 1);
    NoLinkBefore(links, c);
    if n > |c| {
      assert c[..n - 1] == c;
      LinkFreeName(links, c);
      LinkFreeStays(links, Name(c), 0);
    } else {
      var at, rest := c[..n - 1], c[n - 1..];
      assert at + rest == c && at + [rest[0]] == c[..n] && rest[1..] == c[n..];
      ExpandAt(links, at, rest);
    }
  }

  lemma SameStepIff(links: Links, c: seq<string>)
    requires Clean(c) && Target(links, "") == "" && Target(links, "/") == ""
    ensures var n := LinkFrom(links, c, 1);
      SameStep(links, c) <==> n > |c| || Unmoved(c[..n - 1], Target(links, Name(c[..n])))
  {
    hide Target, Split, Join, Name, Expand, Climb, Components;
    var n := LinkFrom(links, c, 1);
    ExpandIsStep(links, c);
    if n <= |c| {
      var t := Target(links, Name(c[..n]));
      var dir := if Absolute(t) then [] else c[..n - 1];
      CleanSlices(c, n);
      CleanSlices(c, n - 1);
      StepClean(dir, t, c[n..]);
      ComponentsAre(t);
      NameInjective(Climb(dir, Split(t)) + c[n..], Components(t) + c[n..]);
      SameFront(Climb(dir, Split(t)), Components(t), c[n..]);
    }
  }

  lemma ComponentsAre(path: string)
    ensures Components(path) == Climb([], Split(path))
  {
  }

  lemma StepClean(dir: seq<string>, target: string, rest: seq<string>)
    requires Clean(dir) && Clean(rest)
    ensures Clean(Climb(dir, Split(target)) + rest) && Clean(Components(target) + rest)
  {
    PartsNoSlash(target);
    ClimbClean(dir, Split(target));
    ComponentsClean(target);
  }

  lemma NameInjective(a: seq<string>, b: seq<string>)
    requires Clean(a) && Clean(b)
    ensures Name(a) == Name(b) <==> a == b
  {
    ComponentsOfName(a);
    ComponentsOfName(b);
  }

  lemma SameFront(a: seq<string>, b: seq<string>, rest: seq<string>)
    ensures a + rest == b + rest <==> a == b
  {
    if a + rest == b + rest {
      assert a == (a + rest)[..|a|] && b == (b + rest)[..|b|];
    }
  }

  /** Every expansion of every path is a step of the usual lookup exactly when no link
      that can be reached directly has a target that depends on its directory. */
  lemma StepsUsualIff(links: Links)
    requires Target(links, "") == "" && Target(links, "/") == ""
    ensures (forall c | Clean(c) :: SameStep(links, c)) <==> (forall dir, name :: LinkUnmoved(links, dir, name))
  {
    hide Target, Split, Join, Name, Expand, Climb, Components, SameStep, Unmoved;
    if forall c | Clean(c) :: SameStep(links, c) {
      forall dir, name ensures LinkUnmoved(links, dir, name) {
        if Clean(dir + [name]) && NoLinkTo(links, dir) && Target(links, Name(dir + [name])) != "" {
          var c := dir + [name];
          SameStepIff(links, c);
          FirstIsLast(links, dir, name);
          assert c[..|c|] == c && c[..|c| - 1] == dir;
        }
      }
    }
    if forall dir, name :: LinkUnmoved(links, dir, name) {
      forall c | Clean(c) ensures SameStep(links, c) {
        SameStepIff(links, c);
        var n := LinkFrom(links, c, 1);
        if n <= |c| {
          NoLinkBefore(links, c);
          CleanSlices(c, n);
          assert c[..n - 1] + [c[n - 1]] == c[..n];
          assert LinkUnmoved(links, c[..n - 1], c[n - 1]);
        }
      }
    }
  }

  lemma FirstIsLast(links: Links, dir: seq<string>, name: string)
    requires NoLinkTo(links, dir) && Target(links, Name(dir + [name])) != ""
    ensures LinkFrom(links, dir + [name], 1) == |dir| + 1
  {
    hide Target, Name;
    var c := dir + [name];
    forall k | 1 <= k <= |dir| ensures Target(links, Name(c[..k])) == "" {
      assert c[..k] == dir[..k];
    }
    assert c[..|c|] == c;
  }

  lemma {:induction false} ExpansionsAreSteps(links: Links, c: seq<string>, n: nat)
    requires Clean(c) && forall d | Clean(d) :: SameStep(links, d)
    ensures Expansions(links, Name(c), n) == Name(UsualSteps(links, c, n))
    decreases n
  {
    hide Expand, Name, UsualStep;
    if n > 0 {
      UsualStepClean(links, c);
      assert SameStep(links, c);
      ExpansionsAreSteps(links, UsualStep(links, c), n - 1);
    }
  }

  lemma UsualStepClean(links: Links, c: seq<string>)
    requires Clean(c)
    ensures Clean(UsualStep(links, c))
  {
    hide Target, Name, Split;
    var n := LinkFrom(links, c, 1);
    if n <= |c| {
      var t := Target(links, Name(c[..n]));
      CleanSlices(c, n);
      CleanSlices(c, n - 1);
      StepClean(if Absolute(t) then [] else c[..n - 1], t, c[n..]);
    }
  }

  /** With such links every path resolves as in the usual lookup, followed for as many
      links. */
  lemma ResolveIsUsual(links: Links, path: string)
    requires Target(links, "") == "" && Target(links, "/") == ""
    requires forall dir, name :: LinkUnmoved(links, dir, name)
    ensures Resolve(links, path) == Name(UsualSteps(links, Components(path), 41))
  {
    hide Expansions, UsualSteps, SameStep, LinkUnmoved, Components, Name;
    StepsUsualIff(links);
    ComponentsClean(path);
    NormalizeIsName(path);
    ExpansionsAreSteps(links, Components(path), 41);
  }

  /** A target that does not climb is unmoved only by a link in the root directory. */
  lemma PlainTarget(dir: seq<string>, target: string)
    requires !Absolute(target) && ".." !in Split(target)
    ensures Unmoved(dir, target) <==> dir == []
  {
    ClimbBelow(dir, [], Split(target));
    assert dir + [] == dir;
    ComponentsAre(target);
    assert |dir + Climb([], Split(target))| == |dir| + |Climb([], Split(target))|;
    if dir == [] { assert dir + Climb([], Split(target)) == Climb([], Split(target)); }
  }

  lemma {:induction false} ClimbBelow(dir: seq<string>, stack: seq<string>, parts: seq<string>)
    requires ".." !in parts
    ensures Climb(dir + stack, parts) == dir + Climb(stack, parts)
    decreases |parts|
  {
    if parts != [] {
      assert parts[0] in parts;
      assert Push(dir + stack, parts[0]) == dir + Push(stack, parts[0]);
      ClimbBelow(dir, Push(stack, parts[0]), parts[1..]);
    }
  }

  lemma NamesOfTwo(a: string, b: string)
    ensures Name([a]) == "/" + a && Name([a, b]) == "/" + a + "/" + b
  {
    assert Join([a]) == a && Join([b]) == b && Join([a, b]) == a + "/" + Join([b]);
  }

  lemma ClimbOne(dir: seq<string>, p: string)
    requires Clean([p])
    ensures Climb(dir, Split(p)) == dir + [p] && Components(p) == [p]
  {
    assert p in [p];
    SplitPlain(p);
    ClimbIdle(dir, [p]);
    ClimbIdle([], [p]);
  }

  /** In a directory x, a link a to b leads to /b instead of /x/b. */
  lemma RelativeMisled(links: Links)
    requires links == map["/x/a" := "b"]
    ensures Expand(links, "/x/a") == "/b" && Name(UsualStep(links, ["x", "a"])) == "/x/b"
  {
    hide Name, Split, Climb, Components, Expand;
    var c := ["x", "a"];
    NamesOfTwo("x", "a");
    NamesOfTwo("x", "b");
    NamesOfTwo("b", "b");
    ClimbOne(["x"], "b");
    assert "/" + "x" + "/" + "a" == "/x/a" && "/" + "x" + "/" + "b" == "/x/b" && "/" + "x" == "/x" && "/" + "b" == "/b";
    assert c[..1] == ["x"] && c[..2] == c;
    assert LinkFrom(links, c, 1) == 2;
    assert ["x"] + ["b"] + c[2..] == ["x", "b"] && ["b"] + c[2..] == ["b"];
    ExpandIsStep(links, c);
  }
}

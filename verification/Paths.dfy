/** Paths of the in-browser file system: normalisation and directory listings
    (src/browser/filesystem.js). */
module Paths {
  import opened DirEntries

  // ----- String.split and Array.join with '/' -----

  function Split(s: string): (parts: seq<string>)
    ensures |parts| >= 1
  {
    if s == "" then [""]
    else
      var rest := Split(s[1..]);
      if s[0] == '/' then [""] + rest else [[s[0]] + rest[0]] + rest[1..]
  }

  function Join(parts: seq<string>): string {
    if parts == [] then ""
    else if |parts| == 1 then parts[0]
    else parts[0] + "/" + Join(parts[1..])
  }

  ghost predicate NoSlash(parts: seq<string>) {
    forall p | p in parts :: '/' !in p
  }

  lemma {:induction false} SplitHead(p: string, s: string)
    requires '/' !in p
    ensures Split(p + "/" + s) == [p] + Split(s)
    decreases |p|
  {
    var t := p + "/" + s;
    if p == "" {
      assert t[1..] == s;
    } else {
      assert t[0] == p[0] && t[1..] == p[1..] + "/" + s;
      SplitHead(p[1..], s);
      assert [p[0]] + p[1..] == p;
    }
  }

  lemma {:induction false} SplitPlain(p: string)
    requires '/' !in p
    ensures Split(p) == [p]
    decreases |p|
  {
    if p != "" {
      SplitPlain(p[1..]);
      assert [p[0]] + p[1..] == p;
    }
  }

  /** Splitting undoes joining, when no part contains the separator. */
  lemma {:induction false} SplitJoin(parts: seq<string>)
    requires parts != [] && NoSlash(parts)
    ensures Split(Join(parts)) == parts
  {
    if |parts| == 1 {
      SplitPlain(parts[0]);
    } else {
      SplitJoin(parts[1..]);
      SplitHead(parts[0], Join(parts[1..]));
    }
  }

  lemma {:induction false} PartsNoSlash(s: string)
    ensures NoSlash(Split(s))
    decreases |s|
  {
    if s != "" { PartsNoSlash(s[1..]); }
  }

  /** Joining two strings with a slash joins their parts. */
  lemma {:induction false} SplitConcat(a: string, b: string)
    ensures Split(a + "/" + b) == Split(a) + Split(b)
    decreases |a|
  {
    var t := a + "/" + b;
    if a == "" {
      assert t[1..] == b;
    } else {
      assert t[0] == a[0] && t[1..] == a[1..] + "/" + b;
      SplitConcat(a[1..], b);
    }
  }

  // ----- normalizePath -----

  /** What one component does to the stack of components so far. */
  function Push(stack: seq<string>, p: string): seq<string> {
    if p == "" || p == "." then stack
    else if p == ".." then (if stack == [] then [] else stack[..|stack| - 1])
    else stack + [p]
  }

  function Climb(stack: seq<string>, parts: seq<string>): seq<string>
    decreases |parts|
  {
    if parts == [] then stack else Climb(Push(stack, parts[0]), parts[1..])
  }

  /** The components a path leads through, after dots are resolved. */
  function Components(path: string): seq<string> {
    Climb([], Split(path))
  }

  function Normalize(path: string): string {
    "/" + Join(Components(path))
  }

  method NormalizePath(path: string) returns (r: string)
    ensures r == Normalize(path)
  {
    var parts := Split(path);
    var result: seq<string> := [];
    for i := 0 to |parts|
      invariant Climb(result, parts[i..]) == Components(path)
    {
      var p := parts[i];
      assert parts[i..][1..] == parts[i + 1..];
      if p == "" || p == "." { continue; }
      if p == ".." {
        if result != [] { result := result[..|result| - 1]; }
        continue;
      }
      result := result + [p];
    }
    r := "/" + Join(result);
  }

  /** A component that names something: not empty, `.` or `..`, and no separator
      inside. */
  ghost predicate IsName(p: string) {
    p != "" && p != "." && p != ".." && '/' !in p
  }

  ghost predicate Clean(parts: seq<string>) {
    forall p | p in parts :: IsName(p)
  }

  lemma PushClean(stack: seq<string>, p: string)
    requires Clean(stack) && '/' !in p
    ensures Clean(Push(stack, p))
  {
    forall q | q in Push(stack, p) ensures q in stack || (q == p && p != "" && p != "." && p != "..") {
    }
  }

  lemma {:induction false} ClimbClean(stack: seq<string>, parts: seq<string>)
    requires Clean(stack) && NoSlash(parts)
    ensures Clean(Climb(stack, parts))
    decreases |parts|
  {
    if parts != [] {
      PushClean(stack, parts[0]);
      ClimbClean(Push(stack, parts[0]), parts[1..]);
    }
  }

  lemma ComponentsClean(path: string)
    ensures Clean(Components(path))
  {
    PartsNoSlash(path);
    ClimbClean([], Split(path));
  }

  lemma {:induction false} ClimbIdle(stack: seq<string>, parts: seq<string>)
    requires Clean(parts)
    ensures Climb(stack, parts) == stack + parts
    decreases |parts|
  {
    if parts == [] {
      assert stack + parts == stack;
    } else {
      assert parts[0] in parts;
      ClimbIdle(stack + [parts[0]], parts[1..]);
      assert stack + [parts[0]] + parts[1..] == stack + parts;
    }
  }

  lemma {:induction false} ClimbConcat(stack: seq<string>, a: seq<string>, b: seq<string>)
    ensures Climb(stack, a + b) == Climb(Climb(stack, a), b)
    decreases |a|
  {
    if a == [] {
      assert a + b == b;
    } else {
      assert (a + b)[1..] == a[1..] + b;
      ClimbConcat(Push(stack, a[0]), a[1..], b);
    }
  }

  /** A list of clean components is read back from the path that names it. */
  lemma ComponentsOfJoin(parts: seq<string>)
    requires Clean(parts)
    ensures Components("/" + Join(parts)) == parts
  {
    if parts == [] {
      assert Split("/") == ["", ""] by { SplitConcat("", ""); }
      assert Climb([], ["", ""]) == Climb([], [""]) == [];
    } else {
      SplitConcat("", Join(parts));
      assert "" + "/" + Join(parts) == "/" + Join(parts);
      SplitJoin(parts);
      assert Climb([], [""] + parts) == Climb(Climb([], [""]), parts) by { ClimbConcat([], [""], parts); }
      ClimbIdle([], parts);
    }
  }

  /** Normalising twice is normalising once. */
  lemma NormalizeIdempotent(path: string)
    ensures Components(Normalize(path)) == Components(path)
    ensures Normalize(Normalize(path)) == Normalize(path)
  {
    ComponentsClean(path);
    ComponentsOfJoin(Components(path));
  }

  /** A normalised path is `/`, or slash and clean components in turn. */
  lemma NormalizedParts(path: string)
    ensures Components(path) == [] ==> Normalize(path) == "/"
    ensures Components(path) != [] ==> Split(Normalize(path)) == [""] + Components(path)
    ensures Clean(Components(path))
  {
    var c := Components(path);
    ComponentsClean(path);
    if c != [] {
      SplitConcat("", Join(c));
      assert "" + "/" + Join(c) == "/" + Join(c);
      SplitJoin(c);
    }
  }

  /** What one more component does: a name goes one level down, `..` one level up
      or nowhere at the root, an empty part or `.` nowhere. */
  lemma LastComponent(a: string, p: string)
    requires '/' !in p
    ensures var c := Components(a);
      Components(a + "/" + p) ==
        if p == "" || p == "." then c else if p == ".." then (if c == [] then [] else c[..|c| - 1]) else c + [p]
  {
    SplitConcat(a, p);
    SplitPlain(p);
    ClimbConcat([], Split(a), [p]);
    assert Climb(Components(a), [p]) == Push(Components(a), p);
  }

  /** Normalising the front of a path first makes no difference. */
  lemma NormalizeCommutes(a: string, b: string)
    ensures Normalize(Normalize(a) + "/" + b) == Normalize(a + "/" + b)
  {
    SplitConcat(a, b);
    SplitConcat(Normalize(a), b);
    ClimbConcat([], Split(a), Split(b));
    ClimbConcat([], Split(Normalize(a)), Split(b));
    NormalizeIdempotent(a);
  }

  /** Symbolic links, by path. */
  type Links = map<string, string>

  // ----- readdir -----

  /** The part of the file system a listing looks at; children.get gives the names
      in the order they were added. */
  datatype Tree = Tree(children: map<string, seq<string>>, dirs: set<string>, links: Links, whiteouts: set<string>)

  function ChildPath(dir: string, name: string): string {
    if dir == "/" then "/" + name else dir + "/" + name
  }

  /** That is the normal form of the directory's path, a slash and the name. */
  lemma ChildPathIs(path: string, name: string)
    requires IsName(name)
    ensures ChildPath(Normalize(path), name) == Normalize(path + "/" + name)
  {
    hide Components, Join;
    var c := Components(path);
    LastComponent(path, name);
    ComponentsClean(path);
    JoinSnoc(c, name);
    JoinEmpty(c);
  }

  lemma JoinEmpty(parts: seq<string>)
    requires Clean(parts)
    ensures Join(parts) == "" <==> parts == []
  {
    if parts != [] { assert parts[0] in parts; }
  }

  lemma {:induction false} JoinSnoc(parts: seq<string>, p: string)
    ensures Join(parts + [p]) == if parts == [] then p else Join(parts) + "/" + p
  {
    if parts != [] {
      assert (parts + [p])[1..] == parts[1..] + [p];
      JoinSnoc(parts[1..], p);
    }
  }

  function KindOf(t: Tree, path: string): Kind {
    if path in t.links then Symlink else if path in t.dirs then Directory else Regular
  }

  function Children(t: Tree, dir: string): seq<string> {
    if dir in t.children then t.children[dir] else []
  }

  predicate Shown(t: Tree, dir: string, name: string) {
    ChildPath(dir, name) !in t.whiteouts && name != "." && name != ".."
  }

  /** Where a name first occurs. */
  function First(names: seq<string>, name: string): (i: nat)
    ensures i <= |names| && name !in names[..i]
    ensures i < |names| ==> names[i] == name
  {
    if names == [] || names[0] == name then 0
    else
      var i := First(names[1..], name) + 1;
      assert names[..i] == [names[0]] + names[1..][..i - 1];
      i
  }

  /** The entries are the names among ch that are shown, each once, in the order of
      first occurrence and with its type. */
  ghost predicate Lists(t: Tree, dir: string, ch: seq<string>, entries: seq<Entry<string>>) {
    && (forall e | e in entries :: e.name in ch && Shown(t, dir, e.name) && e == EntryOf(t, dir, e.name))
    && (forall name | name in ch && Shown(t, dir, name) :: EntryOf(t, dir, name) in entries)
    && (forall i, j | 0 <= i < j < |entries| :: First(ch, entries[i].name) < First(ch, entries[j].name))
  }

  function EntryOf(t: Tree, dir: string, name: string): (e: Entry<string>)
    ensures e.name == name
  {
    Entry(name, KindOf(t, ChildPath(dir, name)))
  }

  lemma ListsNothing(t: Tree, dir: string)
    ensures Lists(t, dir, [], [])
  {
  }

  lemma ListsGrows(t: Tree, dir: string, ch: seq<string>, i: nat, entries: seq<Entry<string>>)
    requires i < |ch| && Lists(t, dir, ch[..i], entries)
    ensures Lists(t, dir, ch[..i + 1],
      if Shown(t, dir, ch[i]) && ch[i] !in ch[..i] then entries + [EntryOf(t, dir, ch[i])] else entries)
  {
    hide Lists, Shown, EntryOf, First;
    assert ch[..i + 1] == ch[..i] + [ch[i]];
    ListsOld(t, dir, ch[..i], ch[i], entries);
    if ch[i] !in ch[..i] && Shown(t, dir, ch[i]) { ListsNew(t, dir, ch[..i], ch[i], entries); }
  }

  lemma ListsOld(t: Tree, dir: string, ch: seq<string>, name: string, entries: seq<Entry<string>>)
    requires Lists(t, dir, ch, entries)
    ensures name in ch || !Shown(t, dir, name) ==> Lists(t, dir, ch + [name], entries)
  {
    hide Shown, EntryOf, First;
    forall e | e in entries ensures First(ch + [name], e.name) == First(ch, e.name) {
      FirstExtends(ch, name, e.name);
    }
  }

  lemma ListsNew(t: Tree, dir: string, ch: seq<string>, name: string, entries: seq<Entry<string>>)
    requires Lists(t, dir, ch, entries) && name !in ch && Shown(t, dir, name)
    ensures Lists(t, dir, ch + [name], entries + [EntryOf(t, dir, name)])
  {
    hide Shown, EntryOf, First;
    forall e | e in entries ensures First(ch + [name], e.name) == First(ch, e.name) < |ch| {
      FirstExtends(ch, name, e.name);
    }
    FirstNew(ch, name);
  }

  lemma {:induction false} FirstExtends(names: seq<string>, last: string, name: string)
    requires name in names
    ensures First(names + [last], name) == First(names, name) < |names|
    decreases |names|
  {
    if names[0] != name {
      assert (names + [last])[1..] == names[1..] + [last];
      FirstExtends(names[1..], last, name);
    }
  }

  lemma {:induction false} FirstNew(names: seq<string>, name: string)
    requires name !in names
    ensures First(names + [name], name) == |names|
    decreases |names|
  {
    if names != [] {
      assert (names + [name])[1..] == names[1..] + [name];
      FirstNew(names[1..], name);
    }
  }

  const DOTS: seq<Entry<string>> := [Entry(".", Directory), Entry("..", Directory)]

  method Readdir(t: Tree, dirPath: string) returns (entries: seq<Entry<string>>)
    ensures |entries| >= 2 && entries[..2] == [Entry(".", Directory), Entry("..", Directory)] == DOTS
    ensures Lists(t, Normalize(dirPath), Children(t, Normalize(dirPath)), entries[2..])
    ensures forall name, kind | IsName(name) :: Entry(name, kind) in entries <==>
      && Normalize(dirPath) in t.children && name in t.children[Normalize(dirPath)]
      && Normalize(dirPath + "/" + name) !in t.whiteouts
      && (if Normalize(dirPath + "/" + name) in t.links then kind == Symlink
          else if Normalize(dirPath + "/" + name) in t.dirs then kind == Directory else kind == Regular)
  {
    hide Lists, Normalize, ChildPath, First;
    var dir := NormalizePath(dirPath);
    entries := DOTS;
    var seen := {".", ".."};
    var ch := Children(t, dir);
    ghost var listed: seq<Entry<string>> := [];
    ListsNothing(t, dir);
    assert ch[..0] == [];
    for i := 0 to |ch|
      invariant entries == DOTS + listed && Lists(t, dir, ch[..i], listed)
      invariant forall name :: name in seen <==> name == "." || name == ".." || (Shown(t, dir, name) && name in ch[..i])
    {
      var name := ch[i];
      ListsGrows(t, dir, ch, i, listed);
      var childPath := ChildPath(dir, name);
      if childPath in t.whiteouts { continue; }
      if name in seen { continue; }
      seen := seen + {name};
      var kind := Regular;
      if childPath in t.dirs { kind := Directory; }
      if childPath in t.links { kind := Symlink; }
      entries := entries + [Entry(name, kind)];
      listed := listed + [Entry(name, kind)];
    }
    assert ch[..|ch|] == ch;
    forall name, kind | IsName(name) ensures Entry(name, kind) in entries <==>
      && Normalize(dirPath) in t.children && name in t.children[Normalize(dirPath)]
      && Normalize(dirPath + "/" + name) !in t.whiteouts
      && (if Normalize(dirPath + "/" + name) in t.links then kind == Symlink
          else if Normalize(dirPath + "/" + name) in t.dirs then kind == Directory else kind == Regular)
    {
      Listed(t, dirPath, listed, name, kind);
    }
  }

  /** Which children a listing has, and with which type. */
  lemma Listed(t: Tree, dirPath: string, entries: seq<Entry<string>>, name: string, kind: Kind)
    requires IsName(name) && Lists(t, Normalize(dirPath), Children(t, Normalize(dirPath)), entries)
    ensures var dir, path := Normalize(dirPath), Normalize(dirPath + "/" + name);
      Entry(name, kind) in DOTS + entries <==>
        && dir in t.children && name in t.children[dir] && path !in t.whiteouts
        && (if path in t.links then kind == Symlink
            else if path in t.dirs then kind == Directory else kind == Regular)
  {
    hide Normalize, ChildPath, First;
    ChildPathIs(dirPath, name);
    assert Entry(name, kind) in entries ==> EntryOf(t, Normalize(dirPath), name) == Entry(name, kind);
  }

  /** No name occurs twice in a listing. */
  lemma NamesDistinct(t: Tree, dir: string, ch: seq<string>, entries: seq<Entry<string>>)
    requires Lists(t, dir, ch, entries)
    ensures forall i, j | 0 <= i < j < |DOTS + entries| :: (DOTS + entries)[i].name != (DOTS + entries)[j].name
  {
    var all := DOTS + entries;
    forall i, j | 0 <= i < j < |all| ensures all[i].name != all[j].name {
      if i >= 2 {
        assert First(ch, entries[i - 2].name) < First(ch, entries[j - 2].name);
      } else if j >= 2 {
        assert all[j] == entries[j - 2] && Shown(t, dir, entries[j - 2].name);
      }
    }
  }
}

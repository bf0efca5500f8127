/** Reading a directory of the file system through getdents64
    (src/browser/kernel-worker.js, src/browser/filesystem.js). */
module DirectoryListing {
  import opened DirEntries
  import opened LittleEndian
  import opened Words
  import opened Wrappers
  import Getdents
  import Paths

  /** TextEncoder.encode, on names. */
  type Utf8 = string -> Getdents.Name

  function Encode(entries: seq<Entry<string>>, utf8: Utf8): (items: seq<Getdents.Item>)
    ensures |items| == |entries|
    ensures forall i | 0 <= i < |entries| :: items[i] == Entry(utf8(entries[i].name), entries[i].kind)
  {
    seq(|entries|, i requires 0 <= i < |entries| => Entry(utf8(entries[i].name), entries[i].kind))
  }

  ghost predicate Injective(utf8: Utf8) {
    forall a, b | utf8(a) == utf8(b) :: a == b
  }

  /** What a program should find: the dots, then every child that is shown, once, in
      the order of first occurrence, each with its type. */
  ghost predicate IsListing(t: Paths.Tree, path: string, entries: seq<Entry<string>>) {
    var dir := Paths.Normalize(path);
    |entries| >= 2 && entries[..2] == Paths.DOTS && Paths.Lists(t, dir, Paths.Children(t, dir), entries[2..])
  }

  /** The records that the walk finds are those entries, encoded. */
  predicate Reads(dirents: seq<Getdents.Dirent>, entries: seq<Entry<string>>, utf8: Utf8) {
    && |dirents| == |entries|
    && forall i | 0 <= i < |entries| ::
         dirents[i] == Getdents.Dirent((i + 1) % Base(8), (i + 2) % Base(8),
                                       Getdents.DType(entries[i].kind), utf8(entries[i].name))
  }

  /** Opens a directory and reads it in the given calls. The program finds the whole
      directory exactly when the calls reach its end, all names fit the record length
      and every answer fits guest memory. */
  method ReadDirectory(t: Paths.Tree, path: string, utf8: Utf8, guest: array<Byte>, calls: seq<Getdents.Request>)
    returns (ghost entries: seq<Entry<string>>, pages: seq<seq<Byte>>)
    modifies guest
    ensures IsListing(t, path, entries)
    ensures var items, found := Encode(entries, utf8), Getdents.WalkPages(pages);
      found.Some? && Reads(found.value, entries, utf8)
      <==> && Getdents.After(items, 0, Getdents.Counts(calls)) == |items|
           && Getdents.AllFit(items, 0, |items|)
           && Getdents.NothingLost(items, 0, calls, guest.Length)
  {
    hide Paths.Lists, Paths.Normalize, Getdents.WalkPages, Getdents.AllFit, Getdents.NothingLost, Getdents.After;
    var dir := new Getdents.OpenDir();
    var listing := Paths.Readdir(t, path);
    entries := listing;
    pages := Getdents.ReadPages(dir, Encode(listing, utf8), guest, calls);
    Getdents.WholeDirectory(Encode(listing, utf8), calls, guest.Length);
    ReadsExpected(entries, utf8);
    ghost var found := Getdents.WalkPages(pages);
    if found.Some? && Reads(found.value, entries, utf8) {
      assert found.value == Getdents.AllExpected(Encode(entries, utf8), 0, |entries|);
    }
  }

  lemma ReadsExpected(entries: seq<Entry<string>>, utf8: Utf8)
    ensures Reads(Getdents.AllExpected(Encode(entries, utf8), 0, |entries|), entries, utf8)
  {
    hide Getdents.AllExpected, Base, Getdents.DType;
    var items := Encode(entries, utf8);
    var all := Getdents.AllExpected(items, 0, |items|);
    Getdents.ExpectedAt(items, 0);
    forall i | 0 <= i < |entries| ensures all[i] == Getdents.Expected(items[i], i) {
      assert all[i - 0] == Getdents.Expected(items[i], i);
    }
  }

  /** A program that found the whole directory has seen every shown child, under one
      record only. */
  lemma EveryChildOnce(t: Paths.Tree, path: string, entries: seq<Entry<string>>, utf8: Utf8,
                       dirents: seq<Getdents.Dirent>, name: string)
    requires IsListing(t, path, entries) && Reads(dirents, entries, utf8) && Injective(utf8)
    requires name in Paths.Children(t, Paths.Normalize(path)) && Paths.Shown(t, Paths.Normalize(path), name)
    ensures exists i | 0 <= i < |dirents| ::
      && dirents[i].name == utf8(name)
      && dirents[i].kind == Getdents.DType(Paths.KindOf(t, Paths.ChildPath(Paths.Normalize(path), name)))
      && forall j | 0 <= j < |dirents| && dirents[j].name == utf8(name) :: i == j
  {
    var dir := Paths.Normalize(path);
    hide Paths.Normalize, Paths.Children, Paths.ChildPath, Paths.KindOf, Paths.First;
    var e := Paths.EntryOf(t, dir, name);
    assert e in entries[2..];
    var k :| 0 <= k < |entries[2..]| && entries[2..][k] == e;
    var i := k + 2;
    assert entries[i] == e;
    assert entries == Paths.DOTS + entries[2..];
    Paths.NamesDistinct(t, dir, Paths.Children(t, dir), entries[2..]);
    assert dirents[i].name == utf8(name);
    forall j | 0 <= j < |dirents| && dirents[j].name == utf8(name) ensures i == j {
      assert entries[j].name == name == entries[i].name;
    }
  }

  /** A program that found the whole directory has seen a name exactly when it is a
      child that is not deleted, with the type byte of the path that the name has. */
  lemma ChildFound(t: Paths.Tree, path: string, entries: seq<Entry<string>>, utf8: Utf8,
                   dirents: seq<Getdents.Dirent>, name: string)
    requires IsListing(t, path, entries) && Reads(dirents, entries, utf8) && Injective(utf8) && Paths.IsName(name)
    ensures var dir, child := Paths.Normalize(path), Paths.Normalize(path + "/" + name);
      && ((exists i | 0 <= i < |dirents| :: dirents[i].name == utf8(name))
          <==> dir in t.children && name in t.children[dir] && child !in t.whiteouts)
      && forall i | 0 <= i < |dirents| && dirents[i].name == utf8(name) ::
           dirents[i].kind == if child in t.links then 10 else if child in t.dirs then 4 else 8
  {
    hide Paths.Normalize, Paths.Lists, Paths.Children;
    var dir, child := Paths.Normalize(path), Paths.Normalize(path + "/" + name);
    var kind := if child in t.links then Symlink else if child in t.dirs then Directory else Regular;
    assert entries == Paths.DOTS + entries[2..];
    forall k: Kind ensures Entry(name, k) in entries <==>
      dir in t.children && name in t.children[dir] && child !in t.whiteouts && k == kind
    {
      Paths.Listed(t, path, entries[2..], name, k);
    }
    forall i | 0 <= i < |dirents| && dirents[i].name == utf8(name) ensures entries[i] == Entry(name, kind) {
      assert entries[i].name == name;
      assert Entry(name, entries[i].kind) in entries;
    }
    if Entry(name, kind) in entries {
      var i :| 0 <= i < |entries| && entries[i] == Entry(name, kind);
      assert dirents[i].name == utf8(name);
    }
  }
}

/** The recursive directory listing of the file store, and what it shows of the stored objects. */
module Listing {
  import opened KeyPath

  /** A directory is the list of its items, as the operating system reads it. */
  datatype Node = File | Dir(items: seq<Item>)
  datatype Item = Item(name: string, node: Node)

  function Prefixed(dir: string, files: seq<string>): seq<string> {
    seq(|files|, i requires 0 <= i < |files| => dir + "/" + files[i])
  }

  /** The relative paths of all files below a directory. */
  function ListingOf(items: seq<Item>): seq<string> {
    if items == [] then [] else FilesOf(items[0]) + ListingOf(items[1..])
  }

  function FilesOf(item: Item): seq<string> {
    match item.node
    case File => [item.name]
    case Dir(sub) => Prefixed(item.name, ListingOf(sub))
  }

  lemma ListingNext(items: seq<Item>, i: int, before: seq<string>, files: seq<string>)
    requires 0 <= i < |items| && files == before + FilesOf(items[i])
    ensures files + ListingOf(items[i + 1..]) == before + ListingOf(items[i..])
  {
    assert items[i..][1..] == items[i + 1..];
    assert before + (FilesOf(items[i]) + ListingOf(items[i + 1..])) == files + ListingOf(items[i + 1..]);
  }

  /** Reads a directory and everything below it. */
  method ReadDir(items: seq<Item>) returns (files: seq<string>)
    ensures files == ListingOf(items)
    decreases items
  {
    files := [];
    for i := 0 to |items|
      invariant files + ListingOf(items[i..]) == ListingOf(items)
    {
      var item := items[i];
      ghost var before := files;
      match item.node {
        case File =>
          files := files + [item.name];
        case Dir(sub) =>
          var below := ReadDir(sub);
          ghost var paths := Prefixed(item.name, below);
          for j := 0 to |below|
            invariant files == before + paths[..j]
          {
            assert paths[..j + 1] == paths[..j] + [paths[j]];
            files := files + [item.name + "/" + below[j]];
          }
          assert paths[..|paths|] == paths;
      }
      ListingNext(items, i, before, files);
    }
  }

  /** `path`, given by its components, names a file of the tree. */
  ghost predicate FileAt(items: seq<Item>, path: seq<string>)
    decreases |path|, 1
  {
    path != [] && exists item :: item in items && Reaches(item, path)
  }

  ghost predicate Reaches(item: Item, path: seq<string>)
    requires path != []
    decreases |path|, 0
  {
    item.name == path[0] &&
    if |path| == 1 then item.node.File? else item.node.Dir? && FileAt(item.node.items, path[1..])
  }

  ghost predicate ProperName(name: string) {
    name != "" && '/' !in name
  }

  /** Names are proper file names and distinct within each directory. */
  ghost predicate WellFormed(items: seq<Item>) {
    (forall i :: 0 <= i < |items| ==> ProperName(items[i].name)) &&
    (forall i :: 0 <= i < |items| && items[i].node.Dir? ==> WellFormed(items[i].node.items)) &&
    (forall i, j :: 0 <= i < j < |items| ==> items[i].name != items[j].name)
  }

  ghost predicate Distinct<T>(s: seq<T>) {
    forall i, j :: 0 <= i < j < |s| ==> s[i] != s[j]
  }

  /** `file` is the file `name` or lies in the directory `name`. */
  ghost predicate Under(name: string, file: string) {
    file == name || IsAncestor(name, file)
  }

  lemma UnderOneName(a: string, b: string, file: string)
    requires '/' !in a && '/' !in b && Under(a, file) && Under(b, file)
    ensures a == b
  {
    var n, m := |a|, |b|;
    assert a == file[..n] && b == file[..m];
    assert n < |file| ==> file[n] == (a + "/")[n];
    assert m < |file| ==> file[m] == (b + "/")[m];
    assert forall i :: 0 <= i < n ==> a[i] == file[i];
    assert forall i :: 0 <= i < m ==> b[i] == file[i];
  }

  lemma {:induction false} ListingMembers(items: seq<Item>, file: string)
    requires file in ListingOf(items)
    ensures exists item :: item in items && file in FilesOf(item)
    ensures exists item :: item in items && Under(item.name, file)
  {
    if file in FilesOf(items[0]) {
      assert items[0] in items;
      assert Under(items[0].name, file) by {
        if items[0].node.Dir? {
          var sub := ListingOf(items[0].node.items);
          var i :| 0 <= i < |sub| && file == items[0].name + "/" + sub[i];
          assert items[0].name + "/" <= file;
        }
      }
    } else {
      ListingMembers(items[1..], file);
      assert forall item :: item in items[1..] ==> item in items;
    }
  }

  lemma {:induction false} MembersListed(items: seq<Item>, item: Item, file: string)
    requires item in items && file in FilesOf(item)
    ensures file in ListingOf(items)
  {
    if item != items[0] {
      assert item in items[1..];
      MembersListed(items[1..], item, file);
    }
  }

  lemma PrefixedDistinct(dir: string, files: seq<string>)
    requires Distinct(files)
    ensures Distinct(Prefixed(dir, files))
  {
    var p := Prefixed(dir, files);
    forall i, j | 0 <= i < j < |p|
      ensures p[i] != p[j]
    {
      var n := |dir| + 1;
      assert p[i][n..] == files[i] && p[j][n..] == files[j];
    }
  }

  /** The listing never names a file twice. */
  lemma {:induction false} ListingDistinct(items: seq<Item>)
    requires WellFormed(items)
    ensures Distinct(ListingOf(items))
    decreases items
  {
    if items != [] {
      var item, rest := items[0], items[1..];
      var head, tail := FilesOf(item), ListingOf(rest);
      ListingDistinct(rest);
      assert Distinct(head) by {
        if item.node.Dir? {
          ListingDistinct(item.node.items);
          PrefixedDistinct(item.name, ListingOf(item.node.items));
        }
      }
      forall i, j | 0 <= i < |head| && 0 <= j < |tail|
        ensures head[i] != tail[j]
      {
        if head[i] == tail[j] {
          ListingMembers([item], head[i]);
          ListingMembers(rest, tail[j]);
          var other :| other in rest && Under(other.name, tail[j]);
          UnderOneName(item.name, other.name, tail[j]);
          assert false;
        }
      }
    }
  }

  lemma {:induction false} ListedIsFile(items: seq<Item>, file: string) returns (path: seq<string>)
    requires file in ListingOf(items)
    ensures FileAt(items, path) && file == JoinSlash(path)
    decreases items
  {
    ListingMembers(items, file);
    var item :| item in items && file in FilesOf(item);
    match item.node
    case File =>
      path := [item.name];
      assert FilesOf(item) == [item.name] && Reaches(item, path);
    case Dir(sub) =>
      assert FilesOf(item) == Prefixed(item.name, ListingOf(sub));
      var i :| 0 <= i < |ListingOf(sub)| && file == item.name + "/" + ListingOf(sub)[i];
      var below := ListedIsFile(sub, ListingOf(sub)[i]);
      path := [item.name] + below;
      assert path[1..] == below && Reaches(item, path);
  }

  lemma {:induction false} FileIsListed(items: seq<Item>, path: seq<string>)
    requires FileAt(items, path)
    ensures JoinSlash(path) in ListingOf(items)
    decreases items
  {
    var item :| item in items && Reaches(item, path);
    if item.node.Dir? {
      var sub := ListingOf(item.node.items);
      FileIsListed(item.node.items, path[1..]);
      var i :| 0 <= i < |sub| && sub[i] == JoinSlash(path[1..]);
      assert Prefixed(item.name, sub)[i] == JoinSlash(path);
    }
    MembersListed(items, item, JoinSlash(path));
  }

  /** The listing names exactly the files of the tree, each by its joined components. */
  lemma ListingExactly(items: seq<Item>, file: string)
    ensures file in ListingOf(items) <==> exists path :: FileAt(items, path) && file == JoinSlash(path)
  {
    if file in ListingOf(items) {
      var path := ListedIsFile(items, file);
    }
    forall path | FileAt(items, path)
      ensures JoinSlash(path) in ListingOf(items)
    {
      FileIsListed(items, path);
    }
  }

  /** The tree holds the files of these entries and no others (it may hold empty directories). */
  ghost predicate Shows(items: seq<Item>, entries: set<Entry>) {
    WellFormed(items) &&
    (forall e :: e in entries ==> FileAt(items, Components(e))) &&
    (forall path :: FileAt(items, path) ==> exists e :: e in entries && path == Components(e))
  }

  /**
    Listing a store whose only entries are the objects `keys`: every object's path comes up, no
    path comes up twice, and taking the separators out of the listing gives back exactly the oids.
  */
  lemma ListingRecoversKeys(items: seq<Item>, keys: set<string>)
    requires forall k :: k in keys ==> PlainKey(k)
    requires Shows(items, set k | k in keys :: Final(k))
    ensures Distinct(ListingOf(items))
    ensures forall k :: k in keys ==> TransformKey(k) in ListingOf(items)
    ensures forall file :: file in ListingOf(items) ==> Unslash(file) in keys && file == TransformKey(Unslash(file))
  {
    ListingDistinct(items);
    forall k | k in keys
      ensures TransformKey(k) in ListingOf(items)
    {
      ComponentsJoin(Final(k));
      ListingExactly(items, TransformKey(k));
      assert FileAt(items, Components(Final(k)));
    }
    forall file | file in ListingOf(items)
      ensures Unslash(file) in keys && file == TransformKey(Unslash(file))
    {
      ListingExactly(items, file);
      var path :| FileAt(items, path) && file == JoinSlash(path);
      var e :| e in (set k | k in keys :: Final(k)) && path == Components(e);
      ComponentsJoin(e);
      UnslashRecoversKey(e.key);
    }
  }

  /** What making the directories of a path and then the file does to the tree. */
  function Insert(items: seq<Item>, path: seq<string>): seq<Item>
    requires path != []
    decreases |path|, |items|
  {
    if items == [] then
      [Item(path[0], if |path| == 1 then File else Dir(Insert([], path[1..])))]
    else if items[0].name != path[0] then
      [items[0]] + Insert(items[1..], path)
    else if |path| == 1 || items[0].node.File? then
      items
    else
      [Item(path[0], Dir(Insert(items[0].node.items, path[1..])))] + items[1..]
  }

  /** No file is where the path needs a directory, and no directory where it needs the file. */
  ghost predicate NoClash(items: seq<Item>, path: seq<string>)
    requires path != []
    decreases |path|
  {
    forall item :: item in items && item.name == path[0] ==>
      if |path| == 1 then item.node.File? else item.node.Dir? && NoClash(item.node.items, path[1..])
  }

  ghost predicate ProperPath(path: seq<string>) {
    path != [] && forall i :: 0 <= i < |path| ==> ProperName(path[i])
  }

  /** What can stand in a directory after an insertion besides what stood there before. */
  ghost predicate Added(item: Item, items: seq<Item>, path: seq<string>)
    requires path != []
  {
    item.name == path[0] &&
    if |path| == 1 then item.node.File?
    else exists sub :: item.node == Dir(Insert(sub, path[1..])) && (sub == [] || Item(path[0], Dir(sub)) in items)
  }

  lemma {:induction false} InsertMembers(items: seq<Item>, path: seq<string>)
    requires path != []
    ensures forall item :: item in Insert(items, path) ==> item in items || Added(item, items, path)
    decreases |items|
  {
    if items != [] && items[0].name != path[0] {
      InsertMembers(items[1..], path);
    } else if items != [] && |path| > 1 && items[0].node.Dir? {
      var sub := items[0].node.items;
      assert items[0] == Item(path[0], Dir(sub));
      assert Added(Item(path[0], Dir(Insert(sub, path[1..]))), items, path);
    } else if items == [] && |path| > 1 {
      assert Added(Item(path[0], Dir(Insert([], path[1..]))), items, path);
    }
  }

  lemma FileAtCons(item: Item, rest: seq<Item>, q: seq<string>)
    ensures FileAt([item] + rest, q) <==> FileAt([item], q) || FileAt(rest, q)
  {
    assert forall x :: x in [item] + rest <==> x in [item] || x in rest;
  }

  lemma FileAtOne(item: Item, q: seq<string>)
    ensures FileAt([item], q) <==> q != [] && Reaches(item, q)
  {
    assert item in [item];
  }

  /** `after` is a proper directory with the files of `before` and the file `path`. */
  ghost predicate AddsFile(before: seq<Item>, after: seq<Item>, path: seq<string>) {
    WellFormed(after) && forall q :: FileAt(after, q) <==> FileAt(before, q) || q == path
  }

  lemma AddsFileCons(item: Item, before: seq<Item>, after: seq<Item>, path: seq<string>)
    requires WellFormed([item] + before) && AddsFile(before, after, path)
    requires forall other :: other in after ==> other.name != item.name
    ensures AddsFile([item] + before, [item] + after, path)
  {
    assert WellFormed([item] + after) by {
      assert ([item] + before)[0] == item;
    }
    forall q
      ensures FileAt([item] + after, q) <==> FileAt([item] + before, q) || q == path
    {
      FileAtCons(item, before, q);
      FileAtCons(item, after, q);
    }
  }

  lemma InsertLeaf(items: seq<Item>, name: string)
    requires WellFormed(items) && ProperName(name) && NoClash(items, [name])
    requires items == [] || items[0].name == name
    ensures AddsFile(items, Insert(items, [name]), [name])
  {
    if items == [] {
      forall q
        ensures FileAt([Item(name, File)], q) <==> q == [name]
      {
        FileAtOne(Item(name, File), q);
        assert |q| == 1 ==> q == [q[0]];
      }
    } else {
      assert items[0] in items && Reaches(items[0], [name]);
    }
  }

  /** Adding a file inside one subdirectory adds it to the directory. */
  lemma GrowDir(dir: Item, others: seq<Item>, grown: seq<Item>, path: seq<string>)
    requires dir.node.Dir? && |path| > 1 && path[0] == dir.name && ProperName(dir.name)
    requires others == [] || WellFormed([dir] + others)
    requires AddsFile(dir.node.items, grown, path[1..])
    ensures AddsFile([dir] + others, [Item(dir.name, Dir(grown))] + others, path)
  {
    var after := Item(dir.name, Dir(grown));
    assert WellFormed([after] + others) by {
      assert ([dir] + others)[0] == dir;
      assert forall i :: 0 < i < |others| + 1 ==> ([after] + others)[i] == ([dir] + others)[i];
    }
    forall q
      ensures FileAt([after] + others, q) <==> FileAt([dir] + others, q) || q == path
    {
      FileAtCons(after, others, q);
      FileAtCons(dir, others, q);
      FileAtOne(after, q);
      FileAtOne(dir, q);
      assert q == path <==> |q| > 1 && q[0] == path[0] && q[1..] == path[1..] by {
        if |q| > 1 && q[0] == path[0] && q[1..] == path[1..] {
          assert q == [q[0]] + q[1..];
          assert path == [path[0]] + path[1..];
        }
      }
    }
  }

  /** Inserting a path that clashes with nothing adds that file and changes no other. */
  lemma {:induction false} InsertAddsFile(items: seq<Item>, path: seq<string>)
    requires WellFormed(items) && ProperPath(path) && NoClash(items, path)
    ensures AddsFile(items, Insert(items, path), path)
    decreases |path|, |items|
  {
    if items != [] && items[0].name != path[0] {
      InsertAddsFile(items[1..], path);
      InsertMembers(items[1..], path);
      AddsFileCons(items[0], items[1..], Insert(items[1..], path), path);
      assert items == [items[0]] + items[1..];
    } else if |path| == 1 {
      InsertLeaf(items, path[0]);
      assert path == [path[0]];
    } else if items == [] {
      InsertAddsFile([], path[1..]);
      var empty, grown := Item(path[0], Dir([])), Item(path[0], Dir(Insert([], path[1..])));
      GrowDir(empty, [], grown.node.items, path);
      assert [empty] + [] == [empty] && [grown] + [] == [grown];
      forall q
        ensures !FileAt([empty], q)
      {
        FileAtOne(empty, q);
      }
    } else {
      assert items[0] in items;
      InsertAddsFile(items[0].node.items, path[1..]);
      GrowDir(items[0], items[1..], Insert(items[0].node.items, path[1..]), path);
      assert items == [items[0]] + items[1..];
    }
  }

  ghost predicate ThirdLevel(items: seq<Item>) {
    forall item :: item in items ==> item.node.File?
  }

  ghost predicate SecondLevel(items: seq<Item>) {
    forall item :: item in items ==> |item.name| == 2 && item.node.Dir? && ThirdLevel(item.node.items)
  }

  /** The shape sharding gives the store: two-character directories twice, then files; short oids beside them. */
  ghost predicate Sharded(items: seq<Item>) {
    forall item :: item in items ==>
      if item.node.Dir? then |item.name| == 2 && SecondLevel(item.node.items) else |item.name| > 2
  }

  /** Oids of three characters or more never clash with what is stored, and keep the shape. */
  lemma InsertKeepsShape(items: seq<Item>, e: Entry)
    requires Sharded(items) && PlainKey(e.key) && |e.key| >= 3
    ensures NoClash(items, Components(e)) && Sharded(Insert(items, Components(e)))
  {
    var path := Components(e);
    InsertMembers(items, path);
    if |e.key| >= 5 {
      assert path[1..] == [path[1], path[2]] && path[1..][1..] == [path[2]];
      forall item | item in Insert(items, path) && item !in items
        ensures item.node.Dir? && SecondLevel(item.node.items)
      {
        var sub :| item.node == Dir(Insert(sub, path[1..])) && (sub == [] || Item(path[0], Dir(sub)) in items);
        assert SecondLevel(sub);
        InsertMembers(sub, path[1..]);
        forall second | second in item.node.items && second !in sub
          ensures |second.name| == 2 && second.node.Dir? && ThirdLevel(second.node.items)
        {
          var third :| second.node == Dir(Insert(third, path[1..][1..]))
            && (third == [] || Item(path[1], Dir(third)) in sub);
          assert ThirdLevel(third);
          InsertMembers(third, path[1..][1..]);
        }
      }
      forall item | item in items && item.name == path[0]
        ensures item.node.Dir? && NoClash(item.node.items, path[1..])
      {
        assert SecondLevel(item.node.items);
      }
    }
  }

  lemma ComponentsProper(e: Entry)
    requires PlainKey(e.key)
    ensures ProperPath(Components(e))
  {
    var c := Components(e);
    forall i | 0 <= i < |c|
      ensures ProperName(c[i])
    {
      assert '/' !in ".tmp";
    }
  }

  /** Every store of oids of length at least three has a tree that shows it. */
  lemma {:induction false} TreeExists(entries: set<Entry>) returns (items: seq<Item>)
    requires forall e :: e in entries ==> PlainKey(e.key) && |e.key| >= 3
    ensures Shows(items, entries) && Sharded(items)
  {
    if entries == {} {
      items := [];
    } else {
      var e :| e in entries;
      var before := TreeExists(entries - {e});
      InsertKeepsShape(before, e);
      ComponentsProper(e);
      InsertAddsFile(before, Components(e));
      items := Insert(before, Components(e));
      assert entries == entries - {e} + {e};
    }
  }
}

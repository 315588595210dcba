/**
 * The listing engine of SmbDirectory (internallyListItems, filterItem, sortItems and the
 * listItems / getDirectories / getFiles entry points) and of SharedDirectory (listItems,
 * listFiles, getDirectories, getFiles). Both revisions share it; they differ only in the
 * name check that skips entries.
 */
module Listing {
  import opened Outcomes
  import opened ItemNames
  import opened Paths
  import opened ShareState
  import opened Items
  import opened PathOrder

  /** The class the listing instantiates for an entry, by its stat kind. */
  function KindOf(entry: Node): Kind {
    if entry.Dir? then Directory else Kind.File
  }

  /** The item built for entry `name` of directory `dir`. */
  function EntryItem(dir: Item, name: string, entry: Node): Item {
    ChildItem(dir, KindOf(entry), name)
  }

  /** filterItem: the item is added at the end when the predicate accepts it. */
  function FilterItem(items: seq<Item>, item: Item, pred: Item -> bool): seq<Item> {
    if pred(item) then items + [item] else items
  }

  // ---------------------------------------------------------------------------------------------
  // What a listing contains

  /** The items a listing of `dir`, whose share entry is `node`, reports (in any order). */
  ghost function Matches(dir: Item, node: Node, pred: Item -> bool, recursive: bool): set<Item>
    decreases node, 1
  {
    if !node.Dir? then {}
    else set name, x | name in node.children && x in EntryMatches(dir, node, name, pred, recursive) :: x
  }

  /**
   * What one entry contributes: nothing when its name is invalid; otherwise its own item when
   * the predicate accepts it, and, in a recursive listing of a directory entry, that
   * directory's listing (whether or not the predicate accepted the directory itself).
   */
  ghost function EntryMatches(dir: Item, node: Node, name: string, pred: Item -> bool, recursive: bool): set<Item>
    requires node.Dir? && name in node.children
    decreases node, 0
  {
    var entry := node.children[name];
    var item := EntryItem(dir, name, entry);
    if !IsValidItemName(dir.rev, name) then {}
    else
      (if pred(item) then {item} else {}) +
      (if recursive && entry.Dir? then Matches(item, entry, pred, true) else {})
  }

  /** What the entries among `names` contribute. */
  ghost function MatchesAmong(dir: Item, node: Node, names: set<string>, pred: Item -> bool, recursive: bool): set<Item>
    requires node.Dir?
  {
    set name, x | name in names && name in node.children && x in EntryMatches(dir, node, name, pred, recursive) :: x
  }

  /**
   * `x` is the item of the entry reached from `node` through the non-empty chain `names`
   * of valid names, and the predicate accepts it.
   */
  ghost predicate ListedThrough(dir: Item, node: Node, pred: Item -> bool, names: seq<string>, x: Item) {
    names != [] &&
    (forall i :: 0 <= i < |names| ==> IsValidItemName(dir.rev, names[i])) &&
    Lookup(node, names).Some? &&
    x == Item(dir.rev, KindOf(Lookup(node, names).value), dir.server, dir.share, JoinPath(dir.path, names)) &&
    pred(x)
  }

  // ---------------------------------------------------------------------------------------------
  // Structure of the listing

  /** Every listed item lies below the listed directory on the share. */
  lemma {:induction false} MatchesBelow(dir: Item, node: Node, pred: Item -> bool, recursive: bool, x: Item)
    requires WellFormed(node) && x in Matches(dir, node, pred, recursive)
    ensures var d := Segments(dir.path);
      |Segments(x.path)| > |d| && Segments(x.path)[..|d|] == d && Segments(x.path)[|d|] in node.children
    decreases node, 1
  {
    var name :| name in node.children && x in EntryMatches(dir, node, name, pred, recursive);
    EntryMatchesBelow(dir, node, name, pred, recursive, x);
    var d, s := Segments(dir.path), Segments(x.path);
    assert s[..|d|] == s[..|d| + 1][..|d|] == (d + [name])[..|d|];
  }

  /** An entry contributes only items at or below the entry's path. */
  lemma {:induction false} EntryMatchesBelow(dir: Item, node: Node, name: string, pred: Item -> bool, recursive: bool, x: Item)
    requires WellFormed(node) && node.Dir? && name in node.children
    requires x in EntryMatches(dir, node, name, pred, recursive)
    ensures var d := Segments(dir.path);
      |Segments(x.path)| > |d| && Segments(x.path)[..|d| + 1] == d + [name]
    ensures Segments(x.path)[|Segments(dir.path)|] == name
    ensures x == EntryItem(dir, name, node.children[name]) || |Segments(x.path)| > |Segments(dir.path)| + 1
    decreases node, 0
  {
    var entry := node.children[name];
    var item := EntryItem(dir, name, entry);
    SegmentsOfChild(dir.path, name);
    if x != item {
      MatchesBelow(item, entry, pred, true, x);
      var d := Segments(dir.path);
      assert Segments(x.path)[..|d| + 1] == Segments(x.path)[..|d| + 1][..|d| + 1];
    }
    var d := Segments(dir.path);
    assert Segments(x.path)[|d|] == Segments(x.path)[..|d| + 1][|d|];
  }

  /** Different entries contribute disjoint sets of items. */
  lemma EntryMatchesDisjoint(dir: Item, node: Node, a: string, b: string, pred: Item -> bool, recursive: bool)
    requires WellFormed(node) && node.Dir? && a in node.children && b in node.children && a != b
    ensures EntryMatches(dir, node, a, pred, recursive) !! EntryMatches(dir, node, b, pred, recursive)
  {
    forall x | x in EntryMatches(dir, node, a, pred, recursive) && x in EntryMatches(dir, node, b, pred, recursive)
      ensures false
    {
      EntryMatchesBelow(dir, node, a, pred, recursive, x);
      EntryMatchesBelow(dir, node, b, pred, recursive, x);
    }
  }

  /** Within one entry, the entry's own item is not repeated by the listing below it. */
  lemma OwnItemNotBelow(dir: Item, node: Node, name: string, pred: Item -> bool)
    requires WellFormed(node) && node.Dir? && name in node.children && node.children[name].Dir?
    ensures EntryItem(dir, name, node.children[name]) !in
      Matches(EntryItem(dir, name, node.children[name]), node.children[name], pred, true)
  {
    var entry := node.children[name];
    var item := EntryItem(dir, name, entry);
    if item in Matches(item, entry, pred, true) {
      MatchesBelow(item, entry, pred, true, item);
    }
  }

  /** Adding one more name to the visited ones adds that entry's contribution, disjoint from the rest. */
  lemma MatchesAmongStep(dir: Item, node: Node, names: set<string>, name: string, pred: Item -> bool, recursive: bool)
    requires WellFormed(node) && node.Dir? && name !in names
    ensures name in node.children ==>
      MatchesAmong(dir, node, names + {name}, pred, recursive) ==
        MatchesAmong(dir, node, names, pred, recursive) + EntryMatches(dir, node, name, pred, recursive) &&
      MatchesAmong(dir, node, names, pred, recursive) !! EntryMatches(dir, node, name, pred, recursive)
    ensures name !in node.children ==>
      MatchesAmong(dir, node, names + {name}, pred, recursive) == MatchesAmong(dir, node, names, pred, recursive)
  {
    if name in node.children {
      forall x | x in MatchesAmong(dir, node, names, pred, recursive) && x in EntryMatches(dir, node, name, pred, recursive)
        ensures false
      {
        var other :| other in names && other in node.children && x in EntryMatches(dir, node, other, pred, recursive);
        EntryMatchesDisjoint(dir, node, other, name, pred, recursive);
      }
    }
  }

  lemma MultisetOfDisjointUnion<T>(a: set<T>, b: set<T>)
    requires a !! b
    ensures multiset(a + b) == multiset(a) + multiset(b)
  {
  }

  /** All entries together contribute the whole listing. */
  lemma MatchesAmongAll(dir: Item, node: Node, names: set<string>, pred: Item -> bool, recursive: bool)
    requires node.Dir? && node.children.Keys <= names
    ensures MatchesAmong(dir, node, names, pred, recursive) == Matches(dir, node, pred, recursive)
  {
  }

  // ---------------------------------------------------------------------------------------------
  // The listing methods

  /** Visiting one more entry adds that entry's contribution to the multiset of visited items. */
  lemma MatchesAmongStepMultiset(dir: Item, node: Node, names: set<string>, name: string, pred: Item -> bool, recursive: bool)
    requires WellFormed(node) && node.Dir? && name !in names
    ensures multiset(MatchesAmong(dir, node, names + {name}, pred, recursive)) ==
      multiset(MatchesAmong(dir, node, names, pred, recursive)) +
      (if name in node.children then multiset(EntryMatches(dir, node, name, pred, recursive)) else multiset{})
  {
    MatchesAmongStep(dir, node, names, name, pred, recursive);
    if name in node.children {
      MultisetOfDisjointUnion(MatchesAmong(dir, node, names, pred, recursive), EntryMatches(dir, node, name, pred, recursive));
    }
  }

  /**
   * The body of internallyListItems' loop for one listed name: an invalid name adds nothing;
   * otherwise the entry is stat'ed at its child path, its item is filtered, and in a recursive
   * listing a directory's own sorted listing follows its item.
   */
  method ListEntry(root: Node, dir: Item, name: string, pred: Item -> bool, recursive: bool, ghost node: Node)
    returns (added: seq<Item>)
    requires ValidShare(root) && NodeAt(root, dir.path) == Some(node) && node.Dir?
    requires name in node.children || name == "." || name == ".."
    ensures multiset(added) ==
      if name in node.children then multiset(EntryMatches(dir, node, name, pred, recursive)) else multiset{}
    decreases node, 0
  {
    added := [];
    var filePath := ChildPath(dir.path, name);
    if IsValidItemName(dir.rev, name) {
      NodeAtChild(root, dir.path, node, name);
      if IsDirectoryAt(root, filePath) {
        var directory := Item(dir.rev, Directory, dir.server, dir.share, filePath);
        added := FilterItem(added, directory, pred);
        if recursive {
          var below := ListExisting(root, directory, pred, true, node.children[name]);
          OwnItemNotBelow(dir, node, name, pred);
          MultisetOfDisjointUnion(if pred(directory) then {directory} else {}, Matches(directory, node.children[name], pred, true));
          added := added + below;
        }
      } else {
        var file := Item(dir.rev, Kind.File, dir.server, dir.share, filePath);
        added := FilterItem(added, file, pred);
      }
    }
  }

  /**
   * internallyListItems: walks the names the server lists, in whatever order it lists them,
   * and appends what each contributes. The result holds each matching item exactly once.
   */
  method InternallyListItems(root: Node, dir: Item, pred: Item -> bool, recursive: bool, ghost node: Node)
    returns (items: seq<Item>)
    requires ValidShare(root) && NodeAt(root, dir.path) == Some(node) && node.Dir?
    ensures multiset(items) == multiset(Matches(dir, node, pred, recursive))
    decreases node, 1
  {
    var entries := ListDirectory(root, dir.path).value;
    LookupWellFormed(root, Segments(dir.path));
    items := [];
    var remaining := entries;
    ghost var visited: set<string> := {};
    while remaining != {}
      invariant remaining <= entries && visited == entries - remaining
      invariant multiset(items) == multiset(MatchesAmong(dir, node, visited, pred, recursive))
      decreases |remaining|
    {
      var name :| name in remaining;
      var added := ListEntry(root, dir, name, pred, recursive, node);
      MatchesAmongStepMultiset(dir, node, visited, name, pred, recursive);
      items := items + added;
      remaining := remaining - {name};
      visited := visited + {name};
    }
    MatchesAmongAll(dir, node, visited, pred, recursive);
  }

  /** listItems(predicate, recursive) on a directory that exists: the entries, sorted by path. */
  method ListExisting(root: Node, dir: Item, pred: Item -> bool, recursive: bool, ghost node: Node)
    returns (items: seq<Item>)
    requires ValidShare(root) && NodeAt(root, dir.path) == Some(node) && node.Dir?
    ensures SortedByPath(items)
    ensures multiset(items) == multiset(Matches(dir, node, pred, recursive))
    decreases node, 2
  {
    var unsorted := InternallyListItems(root, dir, pred, recursive, node);
    var list := new Item[|unsorted|](i requires 0 <= i < |unsorted| => unsorted[i]);
    assert list[..] == unsorted;
    SortItems(list);
    items := list[..];
  }

  /** listItems(predicate, recursive) and listFiles(predicate, recursive): fails, as list does, unless the path is a directory. */
  method ListItems(root: Node, dir: Item, pred: Item -> bool, recursive: bool) returns (r: Result<seq<Item>>)
    requires ValidShare(root)
    ensures r.Ok? <==> IsDirectoryAt(root, dir.path)
    ensures r.Err? ==> r.error == ListDirectory(root, dir.path).error
    ensures r.Ok? ==> SortedByPath(r.value)
    ensures r.Ok? ==> multiset(r.value) == multiset(Matches(dir, NodeAt(root, dir.path).value, pred, recursive))
  {
    match ListDirectory(root, dir.path)
    case Err(e) =>
      r := Err(e);
    case Ok(_) =>
      var items := ListExisting(root, dir, pred, recursive, NodeAt(root, dir.path).value);
      r := Ok(items);
  }

  /** The predicate of listItems(pattern, recursive): the item's name fully matches the compiled pattern. */
  function NameMatches(pattern: string -> bool): Item -> bool {
    (x: Item) => pattern(GetName(x.path))
  }

  /** The predicate SmbItem::isDirectory, evaluated against the share. */
  function IsDirectoryItem(root: Node): Item -> bool {
    (x: Item) => IsDirectoryAt(root, x.path)
  }

  /** The predicate SmbItem::isFile, evaluated against the share. */
  function IsFileItem(root: Node): Item -> bool {
    (x: Item) => IsFileAt(root, x.path)
  }

  /** listItems(): the valid direct children of the directory, each once, sorted by path. */
  method ListAllItems(root: Node, dir: Item) returns (r: Result<seq<Item>>)
    requires ValidShare(root)
    ensures r.Ok? <==> IsDirectoryAt(root, dir.path)
    ensures r.Ok? ==> SortedByPath(r.value)
    ensures r.Ok? ==> forall x :: x in r.value <==>
      exists name :: name in NodeAt(root, dir.path).value.children && IsValidItemName(dir.rev, name) &&
        x == EntryItem(dir, name, NodeAt(root, dir.path).value.children[name])
  {
    var all := (x: Item) => true;
    r := ListItems(root, dir, all, false);
    if r.Ok? {
      forall x ensures x in r.value <==> x in Matches(dir, NodeAt(root, dir.path).value, all, false) {
        assert x in r.value <==> x in multiset(r.value);
      }
      forall x ensures x in Matches(dir, NodeAt(root, dir.path).value, all, false) <==>
        exists name :: name in NodeAt(root, dir.path).value.children && IsValidItemName(dir.rev, name) &&
          x == EntryItem(dir, name, NodeAt(root, dir.path).value.children[name])
      {
        DirectListingMembership(dir, NodeAt(root, dir.path).value, all, x);
      }
    }
  }

  /**
   * listItems(pattern, recursive) and listFiles(pattern, recursive): the regular expression is
   * a parameter here (`pattern` says whether a name fully matches it); every listed name matches.
   */
  method ListItemsMatching(root: Node, dir: Item, pattern: string -> bool, recursive: bool) returns (r: Result<seq<Item>>)
    requires ValidShare(root)
    ensures r.Ok? <==> IsDirectoryAt(root, dir.path)
    ensures r.Ok? ==> SortedByPath(r.value)
    ensures r.Ok? ==> multiset(r.value) == multiset(Matches(dir, NodeAt(root, dir.path).value, NameMatches(pattern), recursive))
    ensures r.Ok? ==> forall x :: x in r.value ==> pattern(GetName(x.path))
  {
    r := ListItems(root, dir, NameMatches(pattern), recursive);
    if r.Ok? {
      forall x | x in r.value ensures pattern(GetName(x.path)) {
        assert x in multiset(r.value);
        MatchesAccepted(dir, NodeAt(root, dir.path).value, NameMatches(pattern), recursive, x);
      }
    }
  }

  /** getDirectories: exactly the valid direct children that are directories, as directory items, sorted by path. */
  method GetDirectories(root: Node, dir: Item) returns (r: Result<seq<Item>>)
    requires ValidShare(root)
    ensures r.Ok? <==> IsDirectoryAt(root, dir.path)
    ensures r.Ok? ==> SortedByPath(r.value) && forall x :: x in r.value ==> x.kind == Directory
    ensures r.Ok? ==> forall x :: x in r.value <==>
      exists name :: name in NodeAt(root, dir.path).value.children && IsValidItemName(dir.rev, name) &&
        NodeAt(root, dir.path).value.children[name].Dir? && x == ChildItem(dir, Directory, name)
  {
    r := ListItems(root, dir, IsDirectoryItem(root), false);
    if r.Ok? {
      var node := NodeAt(root, dir.path).value;
      forall x ensures x in r.value <==>
        exists name :: name in node.children && IsValidItemName(dir.rev, name) &&
          node.children[name].Dir? && x == ChildItem(dir, Directory, name)
      {
        assert x in r.value <==> x in multiset(r.value);
        if x in r.value {
          var name :| name in node.children && x in EntryMatches(dir, node, name, IsDirectoryItem(root), false);
          NodeAtChild(root, dir.path, node, name);
        } else {
          forall name | name in node.children && IsValidItemName(dir.rev, name) && node.children[name].Dir?
            ensures x != ChildItem(dir, Directory, name)
          {
            NodeAtChild(root, dir.path, node, name);
            assert x != EntryItem(dir, name, node.children[name]) || x in EntryMatches(dir, node, name, IsDirectoryItem(root), false);
          }
        }
      }
    }
  }

  /** getFiles: exactly the valid direct children that are files, as file items, sorted by path. */
  method GetFiles(root: Node, dir: Item) returns (r: Result<seq<Item>>)
    requires ValidShare(root)
    ensures r.Ok? <==> IsDirectoryAt(root, dir.path)
    ensures r.Ok? ==> SortedByPath(r.value) && forall x :: x in r.value ==> x.kind == Kind.File
    ensures r.Ok? ==> forall x :: x in r.value <==>
      exists name :: name in NodeAt(root, dir.path).value.children && IsValidItemName(dir.rev, name) &&
        NodeAt(root, dir.path).value.children[name].File? && x == ChildItem(dir, Kind.File, name)
  {
    r := ListItems(root, dir, IsFileItem(root), false);
    if r.Ok? {
      var node := NodeAt(root, dir.path).value;
      forall x ensures x in r.value <==>
        exists name :: name in node.children && IsValidItemName(dir.rev, name) &&
          node.children[name].File? && x == ChildItem(dir, Kind.File, name)
      {
        assert x in r.value <==> x in multiset(r.value);
        if x in r.value {
          var name :| name in node.children && x in EntryMatches(dir, node, name, IsFileItem(root), false);
          NodeAtChild(root, dir.path, node, name);
        } else {
          forall name | name in node.children && IsValidItemName(dir.rev, name) && node.children[name].File?
            ensures x != ChildItem(dir, Kind.File, name)
          {
            NodeAtChild(root, dir.path, node, name);
            assert x != EntryItem(dir, name, node.children[name]) || x in EntryMatches(dir, node, name, IsFileItem(root), false);
          }
        }
      }
    }
  }

  // ---------------------------------------------------------------------------------------------
  // Laws of the listing

  /** Every listed item is accepted by the predicate. */
  lemma {:induction false} MatchesAccepted(dir: Item, node: Node, pred: Item -> bool, recursive: bool, x: Item)
    requires x in Matches(dir, node, pred, recursive)
    ensures pred(x)
    decreases node
  {
    var name :| name in node.children && x in EntryMatches(dir, node, name, pred, recursive);
    var entry := node.children[name];
    var item := EntryItem(dir, name, entry);
    if !(x == item && pred(item)) {
      MatchesAccepted(item, entry, pred, true, x);
    }
  }

  /** A non-recursive listing holds exactly the accepted items of the valid direct entries. */
  lemma DirectListingMembership(dir: Item, node: Node, pred: Item -> bool, x: Item)
    requires node.Dir?
    ensures x in Matches(dir, node, pred, false) <==>
      exists name :: name in node.children && IsValidItemName(dir.rev, name) &&
        x == EntryItem(dir, name, node.children[name]) && pred(x)
  {
    if x in Matches(dir, node, pred, false) {
      var name :| name in node.children && x in EntryMatches(dir, node, name, pred, false);
    } else if (exists name :: name in node.children && IsValidItemName(dir.rev, name) &&
                 x == EntryItem(dir, name, node.children[name]) && pred(x)) {
      var name :| name in node.children && IsValidItemName(dir.rev, name) &&
        x == EntryItem(dir, name, node.children[name]) && pred(x);
      assert x in EntryMatches(dir, node, name, pred, false);
    }
  }

  /** Every item reached through a chain of valid names is in the recursive listing. */
  lemma {:induction false} ListedThroughIsListed(dir: Item, node: Node, pred: Item -> bool, names: seq<string>, x: Item)
    requires ListedThrough(dir, node, pred, names, x)
    ensures x in Matches(dir, node, pred, true)
    decreases |names|
  {
    var name, rest := names[0], names[1..];
    var entry := node.children[name];
    var item := EntryItem(dir, name, entry);
    assert Lookup(node, names) == Lookup(entry, rest);
    assert IsValidItemName(dir.rev, name);
    assert JoinPath(dir.path, names) == JoinPath(item.path, rest);
    if rest != [] {
      forall i | 0 <= i < |rest| ensures IsValidItemName(item.rev, rest[i]) {
        assert rest[i] == names[i + 1];
      }
      assert ListedThrough(item, entry, pred, rest, x);
      ListedThroughIsListed(item, entry, pred, rest, x);
    }
    assert x in EntryMatches(dir, node, name, pred, true);
  }

  /** Every item of the recursive listing is reached through a chain of valid names. */
  lemma {:induction false} ListedIsListedThrough(dir: Item, node: Node, pred: Item -> bool, x: Item)
    requires x in Matches(dir, node, pred, true)
    ensures exists names :: ListedThrough(dir, node, pred, names, x)
    decreases node
  {
    var name :| name in node.children && x in EntryMatches(dir, node, name, pred, true);
    var entry := node.children[name];
    var item := EntryItem(dir, name, entry);
    if x == item && pred(item) {
      assert Lookup(node, [name]) == Some(entry);
      assert ListedThrough(dir, node, pred, [name], x);
    } else {
      ListedIsListedThrough(item, entry, pred, x);
      var rest :| ListedThrough(item, entry, pred, rest, x);
      var names := [name] + rest;
      assert names[1..] == rest;
      assert Lookup(node, names) == Lookup(entry, rest);
      assert ListedThrough(dir, node, pred, names, x);
    }
  }

  /**
   * A recursive listing holds exactly the accepted items anywhere below the directory that are
   * reached through valid names only (an invalid name hides its whole subtree).
   */
  lemma RecursiveListingMembership(dir: Item, node: Node, pred: Item -> bool, x: Item)
    ensures x in Matches(dir, node, pred, true) <==> exists names :: ListedThrough(dir, node, pred, names, x)
  {
    if x in Matches(dir, node, pred, true) {
      ListedIsListedThrough(dir, node, pred, x);
    } else {
      forall names | ListedThrough(dir, node, pred, names, x) ensures false {
        ListedThroughIsListed(dir, node, pred, names, x);
      }
    }
  }

  /** A non-recursive listing is part of the recursive one. */
  lemma DirectWithinRecursive(dir: Item, node: Node, pred: Item -> bool, x: Item)
    requires x in Matches(dir, node, pred, false)
    ensures x in Matches(dir, node, pred, true)
  {
    var name :| name in node.children && x in EntryMatches(dir, node, name, pred, false);
    assert x in EntryMatches(dir, node, name, pred, true);
  }

  /** Within one listing, an item's path determines the item: no path is listed twice with different classes. */
  lemma ListedPathDeterminesItem(dir: Item, node: Node, pred: Item -> bool, recursive: bool, x: Item, y: Item)
    requires WellFormed(node)
    requires x in Matches(dir, node, pred, recursive) && y in Matches(dir, node, pred, recursive)
    requires x.path == y.path
    ensures x == y
  {
    if !recursive {
      DirectWithinRecursive(dir, node, pred, x);
      DirectWithinRecursive(dir, node, pred, y);
    }
    ListedIsListedThrough(dir, node, pred, x);
    ListedIsListedThrough(dir, node, pred, y);
    var xs :| ListedThrough(dir, node, pred, xs, x);
    var ys :| ListedThrough(dir, node, pred, ys, y);
    LookupFollowsSegments(node, xs);
    LookupFollowsSegments(node, ys);
    SegmentsOfJoin(dir.path, xs);
    SegmentsOfJoin(dir.path, ys);
    var d := Segments(dir.path);
    assert xs == (d + xs)[|d|..] && ys == (d + ys)[|d|..];
  }

  /** An item listed once in a sequence whose multiset is that of a set. */
  lemma NoRepeats(s: seq<Item>, m: set<Item>, p: int, q: int)
    requires multiset(s) == multiset(m) && 0 <= p < q < |s|
    ensures s[p] != s[q]
  {
    var before, after := s[..q], s[q..];
    assert s == before + after;
    assert s[p] in multiset(before);
    assert s[q] in multiset(after);
    assert multiset(s)[s[q]] == multiset(before)[s[q]] + multiset(after)[s[q]];
    assert multiset(m)[s[q]] <= 1;
  }

  /**
   * The listing is deterministic: two sorted results with the listing's elements are the same
   * sequence, whatever order the server reported the entries in.
   */
  lemma ListingIsDeterministic(dir: Item, node: Node, pred: Item -> bool, recursive: bool, s: seq<Item>, t: seq<Item>)
    requires WellFormed(node)
    requires SortedByPath(s) && multiset(s) == multiset(Matches(dir, node, pred, recursive))
    requires SortedByPath(t) && multiset(t) == multiset(Matches(dir, node, pred, recursive))
    ensures s == t
  {
    var m := Matches(dir, node, pred, recursive);
    forall p, q | 0 <= p < q < |s| ensures s[p].path != s[q].path {
      NoRepeats(s, m, p, q);
      assert s[p] in multiset(s) && s[q] in multiset(s);
      if s[p].path == s[q].path {
        ListedPathDeterminesItem(dir, node, pred, recursive, s[p], s[q]);
      }
    }
    SortedListingIsUnique(s, t);
  }
}

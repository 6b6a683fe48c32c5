/**
  The tree of subdirectories that the mount and unmount walks run over. A node
  is addressed by its path from the root, so the tree is a map from paths to
  what was stored there, closed under taking the parent.
 */
module MountTrie {
  import opened Wrappers
  import opened Sequences

  type Path = seq<string>
  datatype Entry = Entry(relative: string, full: string)
  type Tree = map<Path, Option<Entry>>

  function Parent(p: Path): Path
    requires p != []
  {
    p[..|p| - 1]
  }

  predicate Above(m: Path, n: Path) { |m| < |n| && n[..|m|] == m }

  /** A path with all its ancestors. */
  ghost function Prefixes(p: Path): set<Path> {
    {p} + if p == [] then {} else Prefixes(Parent(p))
  }

  lemma {:induction false} PrefixesExact(p: Path, q: Path)
    ensures q in Prefixes(p) <==> q <= p
  {
    if p != [] {
      PrefixesExact(Parent(p), q);
      assert p == Parent(p) + [p[|p| - 1]];
      if q <= p && q != p {
        assert |q| < |p|;
        assert q == p[..|q|] == Parent(p)[..|q|];
      }
    }
  }

  lemma PrefixesStep(p: Path, i: nat)
    requires i < |p|
    ensures p[..i + 1] == p[..i] + [p[i]] && Parent(p[..i + 1]) == p[..i]
    ensures Prefixes(p[..i + 1]) == Prefixes(p[..i]) + {p[..i + 1]}
  {}

  ghost predicate Closed(tree: Tree) {
    [] in tree && forall p :: p in tree && p != [] ==> Parent(p) in tree
  }

  function Clean(pieces: seq<string>): (r: seq<string>) {
    if pieces == [] then []
    else (if pieces[0] == "" || pieces[0] == "." then [] else [pieces[0]]) + Clean(pieces[1..])
  }

  /** The components of a path: repeated separators and inner `.` vanish, a leading `/` or `.` stays. */
  function Components(path: string): Path {
    var pieces := Split(path, '/');
    (if path != "" && path[0] == '/' then ["/"] else if pieces[0] == "." then ["."] else []) + Clean(pieces)
  }

  /** Only empty and dot pieces are dropped, wherever they stand. */
  lemma {:induction false} CleanConcat(a: seq<string>, b: seq<string>)
    ensures Clean(a + b) == Clean(a) + Clean(b)
  {
    if a == [] {
      assert a + b == b;
    } else {
      var kept := if a[0] == "" || a[0] == "." then [] else [a[0]];
      assert (a + b)[1..] == a[1..] + b;
      CleanConcat(a[1..], b);
      Associative(kept, Clean(a[1..]), Clean(b));
    }
  }

  lemma CleanOne(piece: string)
    ensures Clean([piece]) == if piece == "" || piece == "." then [] else [piece]
  {}

  lemma SplitAtStart(path: string, first: string, rest: string)
    requires '/' !in first && path == first + ['/'] + rest
    ensures Split(path, '/') == [first] + Split(rest, '/')
  {
    SplitFirst(first, rest, '/');
  }

  /** A leading slash is a component of its own. */
  lemma AbsoluteComponents(path: string, rest: string)
    requires path == "/" + rest
    ensures Components(path) == ["/"] + Clean(Split(rest, '/'))
  {
    hide Split, Clean;
    SplitAtStart(path, "", rest);
    CleanConcat([""], Split(rest, '/'));
    CleanOne("");
  }

  /** So is a dot that starts a relative path, but no later one. */
  lemma DotComponents(path: string, rest: string)
    requires path == "./" + rest
    ensures Components(path) == ["."] + Clean(Split(rest, '/'))
  {
    hide Split, Clean;
    SplitAtStart(path, ".", rest);
    CleanConcat(["."], Split(rest, '/'));
    CleanOne(".");
  }

  lemma AboveIff(m: Path, n: Path)
    ensures Above(m, n) <==> exists below :: below != [] && n == m + below
  {
    if Above(m, n) {
      assert n == m + n[|m|..];
    }
  }

  ghost predicate ProperNames(names: Path) {
    forall i :: 0 <= i < |names| ==> names[i] != "" && names[i] != "." && '/' !in names[i]
  }

  lemma CleanIsIdentity(pieces: seq<string>)
    requires forall i :: 0 <= i < |pieces| ==> pieces[i] != "" && pieces[i] != "."
    ensures Clean(pieces) == pieces
  {}

  lemma FirstOfJoin(names: Path)
    requires names != [] && ProperNames(names)
    ensures Join(names, '/') != "" && Join(names, '/')[0] == names[0][0]
  {}

  /** Joining proper directory names with `/` and taking components gives the names back. */
  lemma ComponentsOfJoin(names: Path)
    requires names != [] && ProperNames(names)
    ensures Components(Join(names, '/')) == names
  {
    SplitOfJoin(names, '/');
    CleanIsIdentity(names);
    FirstOfJoin(names);
  }

  function StripPrefix(s: string, prefix: string): (r: Option<string>)
    ensures r == None ==> !(prefix <= s)
    ensures forall rest :: r == Some(rest) <==> s == prefix + rest
  {
    if prefix <= s then
      assert forall rest :: s == prefix + rest ==> rest == s[|prefix|..];
      Some(s[|prefix|..])
    else
      assert forall rest :: s == prefix + rest ==> prefix <= s;
      None
  }

  /** The key of an exported directory: relative to the share, or the root when it lies outside. */
  function MountKey(base: string, subdir: string): string {
    match StripPrefix(subdir, base)
    case Some(rest) => (match StripPrefix(rest, "/") case Some(key) => key case None => "")
    case None => ""
  }

  /** The key of a mount point; a directory that is not under the base has none. */
  function UnmountKey(base: string, subdir: string): Option<string> {
    if subdir == base then Some("")
    else match StripPrefix(subdir, base)
         case Some(rest) => StripPrefix(rest, "/")
         case None => None
  }

  /** The mount key of a directory is its part below the share; everything else shares the root key. */
  lemma MountKeyExact(base: string, subdir: string, key: string)
    ensures MountKey(base, subdir) == key <==>
              subdir == base + ("/" + key) || (key == "" && forall k :: subdir != base + ("/" + k))
  {
    forall k ensures subdir == base + ("/" + k) <==> StripPrefix(subdir, base) == Some("/" + k) {}
    forall k ensures StripPrefix("/" + k, "/") == Some(k) {}
    if StripPrefix(subdir, base).Some? {
      var rest := StripPrefix(subdir, base).value;
      forall k ensures StripPrefix(rest, "/") == Some(k) <==> rest == "/" + k {}
    }
  }

  /** The unmount key is exact, so two mount points share one only if they differ in a trailing separator. */
  lemma UnmountKeyExact(base: string, subdir: string, key: string)
    ensures UnmountKey(base, subdir) == Some(key) <==> subdir == base + ("/" + key) || (key == "" && subdir == base)
  {
    assert |base + ("/" + key)| > |base|;
    if StripPrefix(subdir, base).Some? {
      var rest := StripPrefix(subdir, base).value;
      assert StripPrefix(rest, "/") == Some(key) <==> rest == "/" + key;
    }
  }

  /** The node a list of insertions leaves at a path: the last one with these components. */
  function Last(items: seq<Entry>, p: Path): Option<Entry> {
    if items == [] then None
    else if Components(items[|items| - 1].relative) == p then Some(items[|items| - 1])
    else Last(items[..|items| - 1], p)
  }

  /** The tree is exactly what the insertions describe: every component path, its ancestors, nothing else. */
  ghost predicate Holds(tree: Tree, items: seq<Entry>) {
    && Closed(tree)
    && (forall p :: p in tree ==> tree[p] == Last(items, p))
    && (forall i :: 0 <= i < |items| ==> Components(items[i].relative) in tree)
    && (forall p :: p in tree && p != [] ==> exists i :: 0 <= i < |items| && p <= Components(items[i].relative))
  }

  class Trie {
    var nodes: Tree

    constructor ()
      ensures Holds(nodes, [])
    {
      nodes := map[[] := None];
    }

    method Insert(relative: string, full: string)
      requires Closed(nodes)
      modifies this
      ensures Closed(nodes)
      ensures var path := Components(relative);
        && path in nodes
        && nodes.Keys == old(nodes.Keys) + Prefixes(path)
        && nodes[path] == Some(Entry(relative, full))
        && (forall p :: p in nodes && p != path ==> nodes[p] == if p in old(nodes) then old(nodes)[p] else None)
    {
      var path := Components(relative);
      var current := [];
      assert Prefixes(path[..0]) == {[]};
      for i := 0 to |path|
        invariant current == path[..i] && (i == |path| ==> path[..i] == path) && current in nodes && Closed(nodes)
        invariant nodes.Keys == old(nodes.Keys) + Prefixes(path[..i])
        invariant forall p :: p in nodes ==> nodes[p] == if p in old(nodes) then old(nodes)[p] else None
      {
        PrefixesStep(path, i);
        current := current + [path[i]];
        if current !in nodes {
          nodes := nodes[current := None];
        }
      }
      nodes := nodes[current := Some(Entry(relative, full))];
    }

    /** Insertion, said of the whole history of insertions. */
    method InsertAfter(ghost items: seq<Entry>, relative: string, full: string)
      requires Holds(nodes, items)
      modifies this
      ensures Holds(nodes, items + [Entry(relative, full)])
    {
      ghost var before := nodes;
      Insert(relative, full);
      InsertionHolds(before, nodes, items, Entry(relative, full));
    }
  }

  lemma InsertionHolds(before: Tree, after: Tree, items: seq<Entry>, entry: Entry)
    requires Holds(before, items) && Closed(after)
    requires var path := Components(entry.relative);
      && path in after
      && after.Keys == before.Keys + Prefixes(path)
      && after[path] == Some(entry)
      && (forall p :: p in after && p != path ==> after[p] == if p in before then before[p] else None)
    ensures Holds(after, items + [entry])
  {
    hide Components, Closed, Last, Prefixes;
    var path := Components(entry.relative);
    var all := items + [entry];
    LastNowhere(before, items);
    forall p | p in after ensures after[p] == Last(all, p) {
      LastSnoc(items, entry, p);
    }
    forall i | 0 <= i < |all| ensures Components(all[i].relative) in after {
      if i < |items| { assert all[i] == items[i]; }
    }
    forall p | p in after && p != [] ensures exists i :: 0 <= i < |all| && p <= Components(all[i].relative) {
      if p in before {
        var i :| 0 <= i < |items| && p <= Components(items[i].relative);
        assert all[i] == items[i];
      } else {
        PrefixesExact(path, p);
        assert p <= Components(all[|items|].relative);
      }
    }
  }

  lemma LastSnoc(items: seq<Entry>, entry: Entry, p: Path)
    ensures Last(items + [entry], p) == if Components(entry.relative) == p then Some(entry) else Last(items, p)
  {
    hide Components;
    assert (items + [entry])[..|items|] == items;
  }

  /** A path outside the tree was never inserted. */
  lemma LastNowhere(tree: Tree, items: seq<Entry>)
    requires forall i :: 0 <= i < |items| ==> Components(items[i].relative) in tree
    ensures forall p :: p !in tree ==> Last(items, p) == None
  {
    hide Components;
    if items != [] {
      LastNowhere(tree, items[..|items| - 1]);
    }
  }

  function MountItems(base: string, subdirs: seq<string>): (r: seq<Entry>)
    ensures |r| == |subdirs|
  {
    seq(|subdirs|, i requires 0 <= i < |subdirs| => Entry(MountKey(base, subdirs[i]), subdirs[i]))
  }

  function UnmountItems(base: string, subdirs: seq<string>): seq<Entry> {
    if subdirs == [] then []
    else
      var last := subdirs[|subdirs| - 1];
      UnmountItems(base, subdirs[..|subdirs| - 1]) +
      match UnmountKey(base, last) case Some(key) => [Entry(key, last)] case None => []
  }

  lemma UnmountItemsStep(base: string, subdirs: seq<string>, i: nat)
    requires i < |subdirs|
    ensures UnmountItems(base, subdirs[..i + 1]) == UnmountItems(base, subdirs[..i]) +
              match UnmountKey(base, subdirs[i]) case Some(key) => [Entry(key, subdirs[i])] case None => []
  {
    hide UnmountKey;
    assert subdirs[..i + 1][..i] == subdirs[..i];
  }

  lemma MountItemsStep(base: string, subdirs: seq<string>, i: nat)
    requires i < |subdirs|
    ensures MountItems(base, subdirs[..i + 1]) == MountItems(base, subdirs[..i]) + [Entry(MountKey(base, subdirs[i]), subdirs[i])]
  {
    hide MountKey;
  }

  method BuildMountTrie(base: string, subdirs: seq<string>) returns (tree: Tree)
    ensures Holds(tree, MountItems(base, subdirs))
  {
    var trie := new Trie();
    ghost var items := [];
    for i := 0 to |subdirs|
      invariant fresh(trie) && items == MountItems(base, subdirs[..i]) && Holds(trie.nodes, items)
    {
      hide Holds, MountKey, MountItems;
      MountItemsStep(base, subdirs, i);
      var key := MountKey(base, subdirs[i]);
      trie.InsertAfter(items, key, subdirs[i]);
      items := items + [Entry(key, subdirs[i])];
    }
    assert subdirs[..|subdirs|] == subdirs;
    return trie.nodes;
  }

  method BuildUnmountTrie(base: string, subdirs: seq<string>) returns (tree: Tree)
    ensures Holds(tree, UnmountItems(base, subdirs))
  {
    var trie := new Trie();
    ghost var items := [];
    for i := 0 to |subdirs|
      invariant fresh(trie) && items == UnmountItems(base, subdirs[..i]) && Holds(trie.nodes, items)
    {
      hide Holds, UnmountItems, UnmountKey;
      UnmountItemsStep(base, subdirs, i);
      var key := UnmountKey(base, subdirs[i]);
      if key == None {
        continue;
      }
      trie.InsertAfter(items, key.value, subdirs[i]);
      items := items + [Entry(key.value, subdirs[i])];
    }
    assert subdirs[..|subdirs|] == subdirs;
    return trie.nodes;
  }

  lemma LastAt(items: seq<Entry>, i: nat)
    requires i < |items| && forall j :: i < j < |items| ==> Components(items[j].relative) != Components(items[i].relative)
    ensures Last(items, Components(items[i].relative)) == Some(items[i])
  {
    hide Components;
    if i < |items| - 1 {
      LastAt(items[..|items| - 1], i);
    }
  }

  /** What a path ends up with is the last item with these components. */
  lemma {:induction false} LastIsAt(items: seq<Entry>, p: Path)
    requires Last(items, p).Some?
    ensures exists j :: IsLastAt(items, p, j) && Last(items, p) == Some(items[j])
  {
    hide Components;
    var n := |items| - 1;
    if Components(items[n].relative) == p {
      assert IsLastAt(items, p, n);
    } else {
      LastIsAt(items[..n], p);
      var j :| IsLastAt(items[..n], p, j) && Last(items[..n], p) == Some(items[..n][j]);
      assert IsLastAt(items, p, j);
    }
  }

  ghost predicate IsLastAt(items: seq<Entry>, p: Path, j: int) {
    && 0 <= j < |items| && Components(items[j].relative) == p
    && forall k :: j < k < |items| ==> Components(items[k].relative) != p
  }

  /** The tree keeps this entry. */
  ghost predicate Kept(tree: Tree, entry: Entry) {
    exists p :: p in tree && tree[p] == Some(entry)
  }

  /** No later item with the same components differs from this one's last copy. */
  ghost predicate LastOfItsComponents(items: seq<Entry>, i: nat)
    requires i < |items|
  {
    exists j :: i <= j && IsLastAt(items, Components(items[i].relative), j) && items[j] == items[i]
  }

  /** Exactly which insertions survive: those whose last copy no later item with the same components follows. */
  lemma KeptIff(tree: Tree, items: seq<Entry>, i: nat)
    requires Holds(tree, items) && i < |items|
    ensures Kept(tree, items[i]) <==> LastOfItsComponents(items, i)
  {
    hide Components;
    var p := Components(items[i].relative);
    if Kept(tree, items[i]) {
      var q :| q in tree && tree[q] == Some(items[i]);
      LastIsAt(items, q);
      var j :| IsLastAt(items, q, j) && Last(items, q) == Some(items[j]);
      assert IsLastAt(items, p, j) && i <= j;
    }
    if LastOfItsComponents(items, i) {
      var j :| i <= j && IsLastAt(items, p, j) && items[j] == items[i];
      LastAt(items, j);
      assert tree[p] == Some(items[i]);
    }
  }

  /** So everything survives if and only if items with equal components are equal. */
  lemma AllKeptIff(tree: Tree, items: seq<Entry>)
    requires Holds(tree, items)
    ensures (forall i :: 0 <= i < |items| ==> Kept(tree, items[i])) <==>
            forall i, j :: 0 <= i < j < |items| && Components(items[i].relative) == Components(items[j].relative) ==> items[i] == items[j]
  {
    hide Components, Holds, Kept;
    if forall i :: 0 <= i < |items| ==> Kept(tree, items[i]) {
      forall i, j | 0 <= i < j < |items| && Components(items[i].relative) == Components(items[j].relative) ensures items[i] == items[j] {
        KeptIff(tree, items, i);
        KeptIff(tree, items, j);
        var a :| i <= a && IsLastAt(items, Components(items[i].relative), a) && items[a] == items[i];
        var b :| j <= b && IsLastAt(items, Components(items[j].relative), b) && items[b] == items[j];
        assert a == b;
      }
    }
    if forall i, j :: 0 <= i < j < |items| && Components(items[i].relative) == Components(items[j].relative) ==> items[i] == items[j] {
      forall i | 0 <= i < |items| ensures Kept(tree, items[i]) {
        KeptIff(tree, items, i);
        LastCopy(items, i, |items|);
      }
    }
  }

  /** Some item from `i` on is the last with the components of item `i`. */
  lemma {:induction false} LastCopy(items: seq<Entry>, i: nat, n: nat)
    requires i < n <= |items|
    requires forall k :: n <= k < |items| ==> Components(items[k].relative) != Components(items[i].relative)
    ensures exists j :: i <= j < n && IsLastAt(items, Components(items[i].relative), j)
  {
    hide Components;
    if Components(items[n - 1].relative) == Components(items[i].relative) {
      assert IsLastAt(items, Components(items[i].relative), n - 1);
    } else {
      LastCopy(items, i, n - 1);
    }
  }

  /** A path that was inserted stays planned. */
  lemma InsertedIsPlanned(items: seq<Entry>, i: nat)
    requires i < |items|
    ensures Last(items, Components(items[i].relative)).Some?
  {
    hide Components;
    LastCopy(items, i, |items|);
    var j :| i <= j < |items| && IsLastAt(items, Components(items[i].relative), j);
    LastAt(items, j);
  }

  // ----- the exported directories

  /** An exported directory keeps its node exactly when no different directory later in the list has equal key components. */
  lemma ExportKeptIff(tree: Tree, base: string, subdirs: seq<string>, i: nat)
    requires Holds(tree, MountItems(base, subdirs)) && i < |subdirs|
    ensures Kept(tree, MountItems(base, subdirs)[i]) <==>
            exists j :: i <= j < |subdirs| && subdirs[j] == subdirs[i] &&
              forall k :: j < k < |subdirs| ==> Components(MountKey(base, subdirs[k])) != Components(MountKey(base, subdirs[i]))
  {
    hide Components, MountKey, Holds, Kept;
    var items := MountItems(base, subdirs);
    KeptIff(tree, items, i);
    if LastOfItsComponents(items, i) {
      var j :| i <= j && IsLastAt(items, Components(items[i].relative), j) && items[j] == items[i];
      forall k | j < k < |subdirs| ensures Components(MountKey(base, subdirs[k])) != Components(MountKey(base, subdirs[i])) {
        assert Components(items[k].relative) != Components(items[i].relative);
      }
    }
    if j :| i <= j < |subdirs| && subdirs[j] == subdirs[i] && forall k :: j < k < |subdirs| ==> Components(MountKey(base, subdirs[k])) != Components(MountKey(base, subdirs[i])) {
      assert IsLastAt(items, Components(items[i].relative), j) && items[j] == items[i];
    }
  }

  /** Every export is mounted if and only if exports with equal key components are the same string. */
  lemma AllExportsKeptIff(tree: Tree, base: string, subdirs: seq<string>)
    requires Holds(tree, MountItems(base, subdirs))
    ensures (forall i :: 0 <= i < |subdirs| ==> Kept(tree, MountItems(base, subdirs)[i])) <==>
            forall i, j :: 0 <= i < j < |subdirs| && Components(MountKey(base, subdirs[i])) == Components(MountKey(base, subdirs[j])) ==>
              subdirs[i] == subdirs[j]
  {
    hide Components, MountKey, Holds, Kept;
    var items := MountItems(base, subdirs);
    AllKeptIff(tree, items);
    assert forall i :: 0 <= i < |subdirs| ==> items[i] == Entry(MountKey(base, subdirs[i]), subdirs[i]);
  }

  /** Below the share, at the node its names spell, on exactly the same condition. */
  lemma MountPlan(tree: Tree, base: string, subdirs: seq<string>, i: nat, names: Path)
    requires Holds(tree, MountItems(base, subdirs)) && i < |subdirs|
    requires names != [] && ProperNames(names) && subdirs[i] == base + ("/" + Join(names, '/'))
    ensures names in tree
    ensures tree[names] == Some(Entry(Join(names, '/'), subdirs[i])) <==>
            exists j :: i <= j < |subdirs| && subdirs[j] == subdirs[i] &&
              forall k :: j < k < |subdirs| ==> Components(MountKey(base, subdirs[k])) != names
  {
    ComponentsOfJoin(names);
    MountKeyExact(base, subdirs[i], Join(names, '/'));
    ExportKeptIff(tree, base, subdirs, i);
    var items := MountItems(base, subdirs);
    assert items[i] == Entry(Join(names, '/'), subdirs[i]);
    hide Components, MountKey, Join;
    if Kept(tree, items[i]) {
      var q :| q in tree && tree[q] == Some(items[i]);
      LastIsAt(items, q);
    }
  }

  /** Of two exports with equal key components the earlier one is lost, unless the same string follows. */
  lemma EarlierIsLost(tree: Tree, base: string, subdirs: seq<string>, i: nat, j: nat)
    requires Holds(tree, MountItems(base, subdirs)) && i < j < |subdirs|
    requires Components(MountKey(base, subdirs[i])) == Components(MountKey(base, subdirs[j]))
    requires forall k :: j <= k < |subdirs| ==> subdirs[k] != subdirs[i]
    ensures !Kept(tree, MountItems(base, subdirs)[i])
  {
    hide Components, MountKey, Holds, Kept;
    ExportKeptIff(tree, base, subdirs, i);
  }

  /** That happens to two spellings of one directory below the share: `a//b` and `a/./b` have the components of `a/b`. */
  lemma SpellingsCollide(base: string, plain: Path, spelled: Path)
    requires plain != [] && ProperNames(plain) && spelled != [] && Without(spelled, '/')
    requires spelled[0] != "" && spelled[0] != "." && Clean(spelled) == plain
    ensures Components(MountKey(base, base + ("/" + Join(spelled, '/')))) == plain
    ensures Components(MountKey(base, base + ("/" + Join(plain, '/')))) == plain
  {
    MountKeyExact(base, base + ("/" + Join(spelled, '/')), Join(spelled, '/'));
    MountKeyExact(base, base + ("/" + Join(plain, '/')), Join(plain, '/'));
    ComponentsOfJoin(plain);
    SplitOfJoin(spelled, '/');
    JoinStart(spelled);
  }

  lemma JoinStart(parts: Path)
    requires parts != [] && Without(parts, '/') && parts[0] != ""
    ensures Join(parts, '/') != "" && Join(parts, '/')[0] != '/'
  {
    assert Join(parts, '/')[0] == parts[0][0];
  }

  /** And to all directories outside the share: they go to the root, which keeps only the last of them. */
  lemma OutsidersCollide(tree: Tree, base: string, subdirs: seq<string>, i: nat, j: nat)
    requires Holds(tree, MountItems(base, subdirs)) && i < j < |subdirs|
    requires !(base + "/" <= subdirs[i]) && !(base + "/" <= subdirs[j])
    ensures exists k :: j <= k < |subdirs| && tree[[]] == Some(MountItems(base, subdirs)[k])
    ensures Kept(tree, MountItems(base, subdirs)[i]) ==> exists k :: j <= k < |subdirs| && subdirs[k] == subdirs[i]
  {
    var items := MountItems(base, subdirs);
    Outsider(base, subdirs[i]);
    Outsider(base, subdirs[j]);
    assert Components("") == [];
    LastCopy(items, j, |items|);
    var k :| j <= k < |items| && IsLastAt(items, Components(items[j].relative), k);
    LastAt(items, k);
    if forall k :: j <= k < |subdirs| ==> subdirs[k] != subdirs[i] {
      EarlierIsLost(tree, base, subdirs, i, j);
    }
  }

  lemma Outsider(base: string, subdir: string)
    requires !(base + "/" <= subdir)
    ensures MountKey(base, subdir) == ""
  {
    forall k ensures subdir != base + ("/" + k) {
      if subdir == base + ("/" + k) {
        Associative(base, "/", k);
      }
    }
    MountKeyExact(base, subdir, "");
  }

  // ----- the mount points to take down

  lemma {:induction false} LastUnmountItem(base: string, subdirs: seq<string>, entry: Entry)
    ensures entry in UnmountItems(base, subdirs) <==>
            exists i :: 0 <= i < |subdirs| && UnmountKey(base, subdirs[i]) == Some(entry.relative) && entry.full == subdirs[i]
  {
    hide UnmountKey;
    if subdirs != [] {
      var n := |subdirs| - 1;
      LastUnmountItem(base, subdirs[..n], entry);
      if i :| 0 <= i < n && UnmountKey(base, subdirs[..n][i]) == Some(entry.relative) && entry.full == subdirs[..n][i] {
        assert subdirs[i] == subdirs[..n][i];
      }
      if i :| 0 <= i < |subdirs| && UnmountKey(base, subdirs[i]) == Some(entry.relative) && entry.full == subdirs[i] {
        if i < n { assert subdirs[..n][i] == subdirs[i]; }
      }
    }
  }

  lemma {:induction false} LastUnmount(base: string, subdirs: seq<string>, i: nat, key: string)
    requires i < |subdirs| && UnmountKey(base, subdirs[i]) == Some(key)
    requires forall j :: i < j < |subdirs| && UnmountKey(base, subdirs[j]).Some? ==>
               Components(UnmountKey(base, subdirs[j]).value) != Components(key)
    ensures Last(UnmountItems(base, subdirs), Components(key)) == Some(Entry(key, subdirs[i]))
  {
    hide Components, UnmountKey, UnmountItems, Last;
    var n := |subdirs| - 1;
    var before := UnmountItems(base, subdirs[..n]);
    UnmountItemsStep(base, subdirs, n);
    assert subdirs[..n + 1] == subdirs && before + [] == before;
    if i < n {
      LastUnmount(base, subdirs[..n], i, key);
    }
    match UnmountKey(base, subdirs[n])
    case None =>
    case Some(last) => LastSnoc(before, Entry(last, subdirs[n]), Components(key));
  }

  /** Mount point `j` is the last one with these key components. */
  ghost predicate IsLastPoint(base: string, subdirs: seq<string>, p: Path, j: int) {
    && 0 <= j < |subdirs| && UnmountKey(base, subdirs[j]).Some? && Components(UnmountKey(base, subdirs[j]).value) == p
    && forall k :: j < k < |subdirs| && UnmountKey(base, subdirs[k]).Some? ==> Components(UnmountKey(base, subdirs[k]).value) != p
  }

  lemma {:induction false} LastUnmountIsPoint(base: string, subdirs: seq<string>, p: Path)
    requires Last(UnmountItems(base, subdirs), p).Some?
    ensures exists j :: IsLastPoint(base, subdirs, p, j)
              && Last(UnmountItems(base, subdirs), p) == Some(Entry(UnmountKey(base, subdirs[j]).value, subdirs[j]))
  {
    hide Components, UnmountKey, UnmountItems, Last;
    if subdirs == [] {
      NothingPlanned(base, p);
      return;
    }
    var n := |subdirs| - 1;
    var before := UnmountItems(base, subdirs[..n]);
    UnmountItemsStep(base, subdirs, n);
    assert subdirs[..n + 1] == subdirs && before + [] == before;
    var key := UnmountKey(base, subdirs[n]);
    if key.Some? { LastSnoc(before, Entry(key.value, subdirs[n]), p); }
    if key.Some? && Components(key.value) == p {
      assert IsLastPoint(base, subdirs, p, n);
    } else {
      LastUnmountIsPoint(base, subdirs[..n], p);
      var j :| IsLastPoint(base, subdirs[..n], p, j) && Last(before, p) == Some(Entry(UnmountKey(base, subdirs[..n][j]).value, subdirs[..n][j]));
      assert IsLastPoint(base, subdirs, p, j);
    }
  }

  lemma NothingPlanned(base: string, p: Path)
    ensures Last(UnmountItems(base, []), p) == None
  {}

  /** A mount point is taken down exactly when no different one later in the list has equal key components. */
  lemma MountPointKeptIff(tree: Tree, base: string, subdirs: seq<string>, i: nat)
    requires Holds(tree, UnmountItems(base, subdirs)) && i < |subdirs| && UnmountKey(base, subdirs[i]).Some?
    ensures var key := UnmountKey(base, subdirs[i]).value;
      Kept(tree, Entry(key, subdirs[i])) <==>
        exists j :: i <= j && IsLastPoint(base, subdirs, Components(key), j) && subdirs[j] == subdirs[i]
  {
    hide Components, UnmountKey, UnmountItems, Last;
    var key := UnmountKey(base, subdirs[i]).value;
    var entry, p, items := Entry(key, subdirs[i]), Components(key), UnmountItems(base, subdirs);
    if Kept(tree, entry) {
      var q :| q in tree && tree[q] == Some(entry);
      LastUnmountIsPoint(base, subdirs, q);
      var j :| IsLastPoint(base, subdirs, q, j) && Last(items, q) == Some(Entry(UnmountKey(base, subdirs[j]).value, subdirs[j]));
      assert q == p && i <= j;
    }
    if j :| i <= j && IsLastPoint(base, subdirs, p, j) && subdirs[j] == subdirs[i] {
      LastUnmount(base, subdirs, j, key);
      LastNowhere(tree, items);
      assert tree[p] == Some(entry);
    }
  }

  /** Under the base, at the node its names spell, on exactly the same condition. */
  lemma UnmountPlan(tree: Tree, base: string, subdirs: seq<string>, i: nat, names: Path)
    requires Holds(tree, UnmountItems(base, subdirs)) && i < |subdirs|
    requires names != [] && ProperNames(names) && subdirs[i] == base + ("/" + Join(names, '/'))
    ensures names in tree
    ensures tree[names] == Some(Entry(Join(names, '/'), subdirs[i])) <==>
            exists j :: i <= j && IsLastPoint(base, subdirs, names, j) && subdirs[j] == subdirs[i]
  {
    ComponentsOfJoin(names);
    UnmountKeyExact(base, subdirs[i], Join(names, '/'));
    MountPointKeptIff(tree, base, subdirs, i);
    var items, entry := UnmountItems(base, subdirs), Entry(Join(names, '/'), subdirs[i]);
    hide Components, UnmountKey, Join, UnmountItems, Last;
    LastUnmountItem(base, subdirs, entry);
    var m :| 0 <= m < |items| && items[m] == entry;
    if Kept(tree, entry) {
      var q :| q in tree && tree[q] == Some(entry);
      LastUnmountIsPoint(base, subdirs, q);
    }
  }

  /** Every mount point under the base is taken down if and only if those with equal key components are the same string. */
  lemma AllMountPointsKeptIff(tree: Tree, base: string, subdirs: seq<string>)
    requires Holds(tree, UnmountItems(base, subdirs))
    ensures (forall i :: 0 <= i < |subdirs| && UnmountKey(base, subdirs[i]).Some? ==>
               Kept(tree, Entry(UnmountKey(base, subdirs[i]).value, subdirs[i]))) <==>
            forall i, j :: 0 <= i < j < |subdirs| && SameUnmountComponents(base, subdirs[i], subdirs[j]) ==> subdirs[i] == subdirs[j]
  {
    hide Components, UnmountKey, Holds, Kept, UnmountItems;
    var items := UnmountItems(base, subdirs);
    AllKeptIff(tree, items);
    forall e: Entry ensures e in items <==> exists i :: 0 <= i < |subdirs| && UnmountKey(base, subdirs[i]) == Some(e.relative) && e.full == subdirs[i] {
      LastUnmountItem(base, subdirs, e);
    }
  }

  predicate SameUnmountComponents(base: string, a: string, b: string) {
    && UnmountKey(base, a).Some? && UnmountKey(base, b).Some?
    && Components(UnmountKey(base, a).value) == Components(UnmountKey(base, b).value)
  }
}

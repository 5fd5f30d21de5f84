/** `treemanager`: a tree of named nodes with parent pointers, addressed by dotted paths. */
module TreeManager {
  import opened Wrappers
  import opened Text

  /** A path is the names from the root's child down. */
  type Path = seq<string>

  datatype Error = NameExistsError | EmptyNameError | RootRemoveError

  function Child(p: Path, name: string): (c: Path)
    ensures |c| == |p| + 1 && c[..|p|] == p && c[|p|] == name
  {
    p + [name]
  }

  lemma IsChild(p: Path)
    requires p != []
    ensures p == Child(p[..|p| - 1], p[|p| - 1])
  {}

  class TreeNode<D> {
    const name: string
    var parent: TreeNode?<D>
    var data: Option<D>
    var children: map<string, TreeNode<D>>

    constructor (name: string, parent: TreeNode?<D>, data: Option<D>)
      ensures this.name == name && this.parent == parent && this.data == data && children == map[]
    {
      this.name, this.parent, this.data, children := name, parent, data, map[];
    }
  }

  /** The node at each path is where the pointers say: every node has one path, its children are
      exactly the nodes one name further, under their own names and with this node as parent. */
  ghost predicate Linked<D>(nodes: map<Path, TreeNode<D>>, root: TreeNode<D>)
    reads nodes.Values
  {
    && [] in nodes && nodes[[]] == root && root.parent == null && root.name == ""
    && (forall p, q :: p in nodes && q in nodes && p != q ==> nodes[p] != nodes[q])
    && (forall p, name :: p in nodes ==> (name in nodes[p].children <==> Child(p, name) in nodes))
    && (forall p, name :: p in nodes && name in nodes[p].children ==> nodes[p].children[name] == nodes[Child(p, name)])
    && (forall p, name :: Child(p, name) in nodes ==>
          p in nodes && nodes[Child(p, name)].name == name && nodes[Child(p, name)].parent == nodes[p])
  }

  /** Names have no dots, and only a path's last name may be empty. */
  ghost predicate Named(p: Path) {
    forall i :: 0 <= i < |p| ==> '.' !in p[i] && (i < |p| - 1 ==> p[i] != "")
  }

  lemma {:induction false} PrefixIn<D>(nodes: map<Path, TreeNode<D>>, root: TreeNode<D>, p: Path, n: nat)
    requires Linked(nodes, root) && p in nodes && n <= |p|
    ensures p[..n] in nodes
    decreases |p|
  {
    if n < |p| {
      IsChild(p);
      PrefixIn(nodes, root, p[..|p| - 1], n);
      assert p[..|p| - 1][..n] == p[..n];
    } else {
      assert p[..n] == p;
    }
  }

  class Tree<D> {
    const root: TreeNode<D>
    ghost var nodes: map<Path, TreeNode<D>>

    ghost predicate Valid()
      reads this, nodes.Values
    {
      Linked(nodes, root) && forall p :: p in nodes ==> Named(p)
    }

    /** What the tree stores: data by path. */
    ghost function Contents(): map<Path, Option<D>>
      reads this, nodes.Values
    {
      map p | p in nodes :: nodes[p].data
    }

    constructor ()
      ensures Valid() && fresh(root) && nodes == map[[] := root]
      ensures Contents() == map[[] := None]
    {
      root := new TreeNode("", null, None);
      new;
      nodes := map[[] := root];
    }

    /** `add_child` of a new node under a free name. */
    method AddChild(current: TreeNode<D>, ghost p: Path, node: TreeNode<D>)
      requires Valid() && p in nodes && nodes[p] == current && node !in nodes.Values
      requires Child(p, node.name) !in nodes && Named(Child(p, node.name))
      requires node.parent == current && node.children == map[]
      modifies this`nodes, current`children
      ensures Valid() && nodes == old(nodes)[Child(p, node.name) := node]
    {
      current.children := current.children[node.name := node];
      ghost var was, c := nodes, Child(p, node.name);
      nodes := was[c := node];
      forall q | q in was
        ensures was[q].children
             == if q == p then old(was[q].children)[node.name := node] else old(was[q].children)
      {}
      forall q, x | q in nodes
        ensures x in nodes[q].children <==> Child(q, x) in nodes
        ensures x in nodes[q].children ==> nodes[q].children[x] == nodes[Child(q, x)]
      {
        if q == c {
          assert Child(c, x) !in was;
        } else {
          assert Child(q, x) in was <==> x in old(was[q].children);
          assert Child(q, x) == c <==> q == p && x == node.name;
        }
      }
    }

    /** `TreeNode(name, current, data)` followed by `current.add_child(node)`, the name being free. */
    method Attach(current: TreeNode<D>, ghost p: Path, name: string, data: Option<D>) returns (node: TreeNode<D>)
      requires Valid() && p in nodes && nodes[p] == current && Child(p, name) !in nodes && Named(Child(p, name))
      modifies this`nodes, current`children
      ensures Valid() && nodes == old(nodes)[Child(p, name) := node] && fresh(node)
      ensures Contents() == old(Contents())[Child(p, name) := data]
    {
      node := NewChild(current, p, name, data);
    }

    method NewChild(current: TreeNode<D>, ghost p: Path, name: string, data: Option<D>) returns (node: TreeNode<D>)
      requires Valid() && p in nodes && nodes[p] == current && Child(p, name) !in nodes && Named(Child(p, name))
      modifies this`nodes, current`children
      ensures Valid() && nodes == old(nodes)[Child(p, name) := node] && fresh(node) && node.data == data
    {
      node := new TreeNode(name, current, data);
      AddChild(current, p, node);
    }

    /** `remove_child_by_name` on the holder of a node: the node and everything below it leave. */
    method Unlink(holder: TreeNode<D>, ghost p: Path, name: string) returns (node: TreeNode<D>)
      requires Valid() && p in nodes && nodes[p] == holder && Child(p, name) in nodes
      modifies this`nodes, holder`children
      ensures Valid() && node == old(nodes)[Child(p, name)]
      ensures nodes == Without(old(nodes), Child(p, name))
    {
      node := holder.children[name];
      holder.children := holder.children - {name};
      ghost var was, c := nodes, Child(p, name);
      nodes := Without(was, c);
      forall q | q in nodes
        ensures nodes[q].children
             == if q == p then old(nodes[q].children) - {name} else old(nodes[q].children)
      {}
      forall q, x | q in nodes
        ensures x in nodes[q].children <==> Child(q, x) in nodes
        ensures x in nodes[q].children ==> nodes[q].children[x] == nodes[Child(q, x)]
      {
        UnlinkedChild(c, p, name, q, x);
        assert Child(q, x) in was <==> x in old(was[q].children);
      }
      forall q, x | Child(q, x) in nodes ensures q in nodes {
        UnlinkedChild(c, p, name, q, x);
      }
    }

    method Detach(holder: TreeNode<D>, ghost p: Path, name: string) returns (node: TreeNode<D>)
      requires Valid() && p in nodes && nodes[p] == holder && Child(p, name) in nodes
      modifies this`nodes, holder`children
      ensures Valid() && node == old(nodes)[Child(p, name)]
      ensures nodes == Without(old(nodes), Child(p, name))
      ensures Contents() == Without(old(Contents()), Child(p, name))
    {
      ghost var before, c := Contents(), Child(p, name);
      node := Unlink(holder, p, name);
      forall q | q in nodes ensures q in before && nodes[q].data == before[q] && !(c <= q) {}
      assert Contents().Keys == Without(before, c).Keys;
    }

    /** `get_by_path`: the node at the path, None when there is none. */
    method GetByPath(path: string) returns (node: TreeNode?<D>)
      requires Valid()
      ensures var parts := SplitOn(path, '.'); node == if parts in nodes then nodes[parts] else null
    {
      var parts := SplitOn(path, '.');
      var current := root;
      for i := 0 to |parts|
        invariant parts[..i] in nodes && current == nodes[parts[..i]]
      {
        assert Child(parts[..i], parts[i]) == parts[..i + 1];
        if parts[i] !in current.children {
          MissingPrefix(nodes, root, parts, i + 1);
          return null;
        }
        current := current.children[parts[i]];
      }
      assert parts[..|parts|] == parts;
      return current;
    }

    /** One turn of the walk: the child with the next name, created without data when it is missing. */
    method StepInto(current: TreeNode<D>, parts: Path, i: nat, ghost before: map<Path, Option<D>>)
        returns (next: TreeNode<D>)
      requires Valid() && i < |parts| && parts[..i] in nodes && nodes[parts[..i]] == current && Named(parts[..i + 1])
      requires Contents() == WithPrefixes(before, parts[..i])
      modifies this`nodes, current`children
      ensures Valid() && parts[..i + 1] in nodes && nodes[parts[..i + 1]] == next
      ensures forall q :: q in old(nodes) ==> q in nodes && nodes[q] == old(nodes)[q]
      ensures forall n :: n in nodes.Values ==> n in old(nodes).Values || fresh(n)
      ensures Contents() == WithPrefixes(before, parts[..i + 1])
    {
      ghost var here := parts[..i];
      assert Child(here, parts[i]) == parts[..i + 1];
      PrefixesStep(before, here, parts[i]);
      if parts[i] in current.children {
        next := current.children[parts[i]];
      } else {
        next := Attach(current, here, parts[i], None);
      }
    }

    /** The walk of `add_node_by_path` through all names but the last; None at an empty name. */
    method Descend(parts: Path) returns (r: Option<TreeNode<D>>)
      requires Valid() && parts != [] && forall k :: 0 <= k < |parts| ==> '.' !in parts[k]
      modifies this`nodes, (set n | n in nodes.Values)`children
      ensures Valid()
      ensures forall q :: q in old(nodes) ==> q in nodes && nodes[q] == old(nodes)[q]
      ensures forall n :: n in nodes.Values ==> n in old(nodes).Values || fresh(n)
      ensures Contents() == WithPrefixes(old(Contents()), parts[..FirstEmpty(parts, 0)])
      ensures r.None? <==> FirstEmpty(parts, 0) < |parts| - 1
      ensures r.Some? ==> parts[..|parts| - 1] in nodes && nodes[parts[..|parts| - 1]] == r.value && Named(parts)
    {
      var last := |parts| - 1;
      var current := root;
      for i := 0 to last
        invariant Valid() && parts[..i] in nodes && current == nodes[parts[..i]]
        invariant forall q :: q in old(nodes) ==> q in nodes && nodes[q] == old(nodes)[q]
        invariant forall n :: n in nodes.Values ==> n in old(nodes).Values || fresh(n)
        invariant Contents() == WithPrefixes(old(Contents()), parts[..i])
        invariant forall k :: 0 <= k < i ==> parts[k] != ""
      {
        if parts[i] == "" {
          FirstEmptyAt(parts, i);
          return None;
        }
        current := StepInto(current, parts, i, old(Contents()));
      }
      FirstEmptyAt(parts, last);
      return Some(current);
    }

    /** The end of `add_node_by_path`: a new node under the last name, unless the name is taken. */
    method AddLast(holder: TreeNode<D>, parts: Path, data: Option<D>, ghost before: map<Path, Option<D>>)
      returns (r: Result<TreeNode<D>, Error>)
      requires Valid() && parts != [] && Named(parts)
      requires parts[..|parts| - 1] in nodes && nodes[parts[..|parts| - 1]] == holder
      requires FirstEmpty(parts, 0) == |parts| - 1 && PrefixClosed(before)
      requires Contents() == WithPrefixes(before, parts[..|parts| - 1])
      modifies this`nodes, holder`children
      ensures Valid()
      ensures forall q :: q in old(nodes) ==> q in nodes && nodes[q] == old(nodes)[q]
      ensures r.Err? <==> parts in before
      ensures r.Err? ==> r.error == NameExistsError && nodes == old(nodes)
      ensures r.Ok? ==> parts in nodes && nodes[parts] == r.value && fresh(r.value)
      ensures Contents() == Added(before, parts, data)
    {
      var name := parts[|parts| - 1];
      ghost var front := parts[..|parts| - 1];
      assert Child(front, name) == parts;
      PrefixesAdded(before, front, parts);
      if name in holder.children {
        SamePrefixes(nodes, root, Contents(), before, parts);
        return Err(NameExistsError);
      }
      var node := Attach(holder, front, name, data);
      return Ok(node);
    }

    /** `add_node_by_path`. Missing nodes on the way are created with no data. An empty name on the way
        stops the walk, after the nodes before it were created; a taken name changes nothing. */
    method AddNodeByPath(path: string, data: Option<D>) returns (r: Result<TreeNode<D>, Error>)
      requires Valid()
      modifies this`nodes, (set n | n in nodes.Values)`children
      ensures Valid()
      ensures forall q :: q in old(nodes) ==> q in nodes && nodes[q] == old(nodes)[q]
      ensures Refusal(old(Contents()), SplitOn(path, '.')) == if r.Err? then Some(r.error) else None
      ensures r.Ok? ==> SplitOn(path, '.') in nodes && nodes[SplitOn(path, '.')] == r.value && fresh(r.value)
      ensures r == Err(NameExistsError) ==> nodes == old(nodes)
      ensures Contents() == Added(old(Contents()), SplitOn(path, '.'), data)
    {
      var parts := SplitOn(path, '.');
      ghost var before := Contents();
      ClosedContents(nodes, root, before);
      assert forall k :: 0 <= k < |parts| ==> parts[k] in parts;
      var found := Descend(parts);
      if found.None? {
        return Err(EmptyNameError);
      }
      r := AddLast(found.value, parts, data, before);
      if r.Err? { assert nodes.Keys == Contents().Keys == before.Keys; }
    }

    /** `remove_node`: the root is refused; any other node of the tree leaves with all below it. */
    method RemoveNode(node: TreeNode<D>, ghost p: Path) returns (r: Result<TreeNode<D>, Error>)
      requires Valid() && p in nodes && nodes[p] == node
      modifies this`nodes, (set n | n in nodes.Values)`children
      ensures Valid()
      ensures node == root ==> r == Err(RootRemoveError) && nodes == old(nodes) && Contents() == old(Contents())
      ensures node != root ==> r == Ok(node) && nodes == Without(old(nodes), p)
      ensures node != root ==> Contents() == Without(old(Contents()), p)
    {
      if node == root {
        return Err(RootRemoveError);
      }
      assert p != [];
      IsChild(p);
      var removed := Detach(node.parent, p[..|p| - 1], node.name);
      return Ok(node);
    }

    /** `remove_node_by_path`: nothing happens when there is no such node. */
    method RemoveNodeByPath(path: string) returns (node: TreeNode?<D>)
      requires Valid()
      modifies this`nodes, (set n | n in nodes.Values)`children
      ensures Valid()
      ensures var parts := SplitOn(path, '.'); node == if parts in old(nodes) then old(nodes)[parts] else null
      ensures nodes == Without(old(nodes), SplitOn(path, '.'))
      ensures Contents() == Without(old(Contents()), SplitOn(path, '.'))
    {
      var parts := SplitOn(path, '.');
      var current := root;
      var parent: TreeNode?<D> := null;
      for i := 0 to |parts|
        invariant parts[..i] in nodes && current == nodes[parts[..i]]
        invariant i > 0 ==> parts[..i - 1] in nodes && parent == nodes[parts[..i - 1]] && current.name == parts[i - 1]
      {
        assert Child(parts[..i], parts[i]) == parts[..i + 1];
        if parts[i] !in current.children {
          NoneBelow(nodes, root, parts, i + 1);
          assert Without(Contents(), parts) == Contents();
          return null;
        }
        parent := current;
        current := current.children[parts[i]];
      }
      assert parts[..|parts|] == parts;
      IsChild(parts);
      node := Detach(parent, parts[..|parts| - 1], current.name);
    }

    /** `get_path` of a node of the tree: the empty text at the root and at an empty name. */
    method GetPath(node: TreeNode<D>, ghost p: Path) returns (path: string)
      requires Valid() && p in nodes && nodes[p] == node
      ensures path == if p == [] || p[|p| - 1] == "" then "" else JoinWith(p, '.')
      decreases |p|
    {
      if p != [] { IsChild(p); }
      if node.name == "" {
        return "";
      }
      ghost var front := p[..|p| - 1];
      assert Named(p);
      var parent_path := GetPath(node.parent, front);
      JoinSnoc(front, node.name);
      JoinNotEmpty(front);
      if parent_path == "" {
        return node.name;
      }
      return parent_path + "." + node.name;
    }

    /** A node's path leads back to it exactly when the node is named, or is the root's unnamed child. */
    method FindAgain(node: TreeNode<D>, ghost p: Path) returns (found: TreeNode?<D>)
      requires Valid() && p in nodes && nodes[p] == node
      ensures found == node <==> p != [] && (p[|p| - 1] != "" || |p| == 1)
    {
      var path := GetPath(node, p);
      found := GetByPath(path);
      assert Named(p);
      if p != [] && p[|p| - 1] != "" {
        forall name | name in p ensures '.' !in name {
          var i :| 0 <= i < |p| && p[i] == name;
        }
        SplitJoin(p, '.');
      } else {
        assert SplitOn("", '.') == [""];
        if |p| == 1 { assert p == [""]; }
      }
    }

    /** `search_custom` from a node: each named node that satisfies the predicate, once, and no node
        before one that is below it. `func` is what the caller's predicate answers during the search. */
    method SearchCustom(node: TreeNode<D>, func: TreeNode<D> -> bool, ghost p: Path)
        returns (result: seq<TreeNode<D>>, ghost paths: seq<Path>)
      requires Valid() && p in nodes && nodes[p] == node
      ensures AtPaths(nodes, result, paths)
      ensures Lists(paths, FromHere(Hits(nodes, func), p))
      decreases Below(nodes, p), 1
    {
      result, paths := SearchChildren(node, func, p);
      if node.name != "" && func(node) {
        AppendSelf(nodes, func, paths, p);
        result, paths := result + [node], paths + [p];
      } else {
        NotSelf(nodes, func, p);
      }
    }

    /** The loop of `search_custom` over the children. */
    method SearchChildren(node: TreeNode<D>, func: TreeNode<D> -> bool, ghost p: Path)
        returns (result: seq<TreeNode<D>>, ghost paths: seq<Path>)
      requires Valid() && p in nodes && nodes[p] == node
      ensures AtPaths(nodes, result, paths)
      ensures Lists(paths, ProperlyBelow(Hits(nodes, func), p))
      decreases Below(nodes, p), 0
    {
      result, paths := [], [];
      var names := node.children.Keys;
      BelowIsUnderChildren(nodes, root, p);
      ghost var hits := Hits(nodes, func);
      while names != {}
        invariant names <= node.children.Keys
        invariant AtPaths(nodes, result, paths)
        invariant Lists(paths, Done(hits, p, names))
        decreases names
      {
        SomeName(names);
        var name: string :| name in names;
        BelowChild(nodes, root, p, name);
        var more, morePaths := SearchCustom(node.children[name], func, Child(p, name));
        AppendSubtree(hits, p, names, name, paths, morePaths);
        AtPathsConcat(nodes, result, paths, more, morePaths);
        result, paths := result + more, paths + morePaths;
        names := names - {name};
      }
      assert Done(hits, p, names) == ProperlyBelow(hits, p);
    }
  }

  lemma UnlinkedChild(c: Path, p: Path, name: string, q: Path, x: string)
    requires c == Child(p, name)
    ensures c <= Child(q, x) <==> c <= q || (q == p && x == name)
  {}

  /** The map without a path and its extensions. */
  ghost function Without<T>(m: map<Path, T>, p: Path): map<Path, T> { map q | q in m && !(p <= q) :: m[q] }

  /** A path whose prefix is missing is missing. */
  lemma MissingPrefix<D>(nodes: map<Path, TreeNode<D>>, root: TreeNode<D>, p: Path, n: nat)
    requires Linked(nodes, root) && n <= |p| && p[..n] !in nodes
    ensures p !in nodes
  {
    if p in nodes { PrefixIn(nodes, root, p, n); }
  }

  lemma NoneBelow<D>(nodes: map<Path, TreeNode<D>>, root: TreeNode<D>, p: Path, n: nat)
    requires Linked(nodes, root) && n <= |p| && p[..n] !in nodes
    ensures p !in nodes && Without(nodes, p) == nodes
  {
    MissingPrefix(nodes, root, p, n);
    forall q | q in nodes ensures !(p <= q) {
      if p <= q {
        assert q[..n] == p[..n];
        PrefixIn(nodes, root, q, n);
      }
    }
  }

  lemma ClosedContents<D>(nodes: map<Path, TreeNode<D>>, root: TreeNode<D>, contents: map<Path, Option<D>>)
    requires Linked(nodes, root) && contents.Keys == nodes.Keys
    ensures PrefixClosed(contents)
  {
    forall p, n | p in contents && 0 <= n <= |p| ensures p[..n] in contents {
      PrefixIn(nodes, root, p, n);
    }
  }

  // ---------------------------------------------------------------------------------------
  // The tree as a map from paths to data
  // ---------------------------------------------------------------------------------------

  /** The position of the first empty name before the last; the last position when there is none. */
  function FirstEmpty(p: Path, i: nat): (k: nat)
    requires i < |p|
    ensures i <= k < |p|
    decreases |p| - i
  {
    if i == |p| - 1 || p[i] == "" then i else FirstEmpty(p, i + 1)
  }

  lemma {:induction false} FirstEmptyFrom(p: Path, i: nat, k: nat)
    requires i <= k < |p| && (forall j :: i <= j < k ==> p[j] != "") && (k == |p| - 1 || p[k] == "")
    ensures FirstEmpty(p, i) == k
    decreases k - i
  {
    if i < k { FirstEmptyFrom(p, i + 1, k); }
  }

  lemma FirstEmptyAt(p: Path, k: nat)
    requires k < |p| && (forall j :: 0 <= j < k ==> p[j] != "") && (k == |p| - 1 || p[k] == "")
    ensures FirstEmpty(p, 0) == k
  {
    FirstEmptyFrom(p, 0, k);
  }

  /** The map with the missing non-empty prefixes of a path, and the path itself, added without data. */
  ghost function WithPrefixes<T>(m: map<Path, Option<T>>, p: Path): map<Path, Option<T>> {
    if p == [] then m
    else
      var shorter := WithPrefixes(m, p[..|p| - 1]);
      if p in shorter then shorter else shorter[p := None]
  }

  lemma PrefixesStep<T>(m: map<Path, Option<T>>, p: Path, name: string)
    ensures WithPrefixes(m, Child(p, name)) ==
      if Child(p, name) in WithPrefixes(m, p) then WithPrefixes(m, p) else WithPrefixes(m, p)[Child(p, name) := None]
  {}

  /** Why adding a path is refused. */
  ghost function Refusal<T>(m: map<Path, Option<T>>, p: Path): Option<Error>
    requires p != []
  {
    if FirstEmpty(p, 0) < |p| - 1 then Some(EmptyNameError)
    else if p in m then Some(NameExistsError)
    else None
  }

  /** The map after adding a path. */
  ghost function Added<T>(m: map<Path, Option<T>>, p: Path, data: Option<T>): map<Path, Option<T>>
    requires p != []
  {
    match Refusal(m, p)
    case None => WithPrefixes(m, p[..|p| - 1])[p := data]
    case Some(EmptyNameError) => WithPrefixes(m, p[..FirstEmpty(p, 0)])
    case Some(_) => m
  }

  ghost predicate PrefixClosed<T>(m: map<Path, Option<T>>) {
    forall p, n :: p in m && 0 <= n <= |p| ==> p[..n] in m
  }

  /** Adding the prefixes of a path that is there already adds nothing. */
  lemma {:induction false} NothingMissing<T>(m: map<Path, Option<T>>, p: Path)
    requires forall n :: 0 <= n <= |p| ==> p[..n] in m
    ensures WithPrefixes(m, p) == m
  {
    if p != [] {
      var front := p[..|p| - 1];
      forall n | 0 <= n <= |front| ensures front[..n] in m {
        assert front[..n] == p[..n];
      }
      NothingMissing(m, front);
      assert p[..|p|] == p;
    }
  }

  /** A path found after its prefixes were added was there before, and so were they. */
  lemma SamePrefixes<D>(nodes: map<Path, TreeNode<D>>, root: TreeNode<D>,
                        now: map<Path, Option<D>>, before: map<Path, Option<D>>, p: Path)
    requires Linked(nodes, root) && p != [] && p in nodes && now.Keys == nodes.Keys
    requires PrefixClosed(before) && now == WithPrefixes(before, p[..|p| - 1])
    ensures p in before && now == before
  {
    PrefixesAdded(before, p[..|p| - 1], p);
    assert p in before;
    var front := p[..|p| - 1];
    assert front in before;
    forall n | 0 <= n <= |front| ensures front[..n] in before {}
    NothingMissing(before, front);
  }

  /** `WithPrefixes` point by point. */
  lemma {:induction false} PrefixesAdded<T>(m: map<Path, Option<T>>, p: Path, q: Path)
    ensures q in WithPrefixes(m, p) <==> q in m || (q != [] && q <= p)
    ensures q in m ==> WithPrefixes(m, p)[q] == m[q]
    ensures q !in m && q != [] && q <= p ==> WithPrefixes(m, p)[q] == None
  {
    if p != [] {
      PrefixesAdded(m, p[..|p| - 1], q);
      PrefixesAdded(m, p[..|p| - 1], p);
      assert q <= p <==> q == p || q <= p[..|p| - 1];
    }
  }

  lemma {:induction false} JoinSnoc(p: Path, name: string)
    ensures JoinWith(p + [name], '.') == if p == [] then name else JoinWith(p, '.') + "." + name
  {
    if |p| == 1 {
      assert (p + [name])[1..] == [name];
    } else if p != [] {
      assert (p + [name])[1..] == p[1..] + [name];
      JoinSnoc(p[1..], name);
    }
  }

  lemma JoinNotEmpty(p: Path)
    ensures p != [] && p[0] != "" ==> JoinWith(p, '.') != ""
  {}

  ghost function Below<D>(nodes: map<Path, TreeNode<D>>, p: Path): set<Path> { set q | q in nodes && p <= q }

  /** The search is smaller below a child. */
  lemma BelowChild<D>(nodes: map<Path, TreeNode<D>>, root: TreeNode<D>, p: Path, name: string)
    requires Linked(nodes, root) && p in nodes && name in nodes[p].children
    ensures Child(p, name) in nodes && nodes[p].children[name] == nodes[Child(p, name)]
    ensures Below(nodes, Child(p, name)) < Below(nodes, p)
  {
    assert p in Below(nodes, p) && p !in Below(nodes, Child(p, name));
  }

  ghost function FromHere(hits: set<Path>, p: Path): set<Path> { set q | q in hits && p <= q }

  ghost function ProperlyBelow(hits: set<Path>, p: Path): set<Path> { set q | q in hits && p < q }

  /** Those below children of p that are no longer to do. */
  ghost function Done(hits: set<Path>, p: Path, todo: set<string>): set<Path> {
    set q | q in hits && p < q && q[|p|] !in todo
  }

  /** The named nodes of the tree that satisfy the predicate. */
  ghost function Hits<D>(nodes: map<Path, TreeNode<D>>, func: TreeNode<D> -> bool): set<Path> {
    set q | q in nodes && nodes[q].name != "" && func(nodes[q])
  }

  ghost predicate AtPaths<D>(nodes: map<Path, TreeNode<D>>, result: seq<TreeNode<D>>, paths: seq<Path>) {
    |paths| == |result| && forall i :: 0 <= i < |paths| ==> paths[i] in nodes && nodes[paths[i]] == result[i]
  }

  lemma AtPathsConcat<D>(nodes: map<Path, TreeNode<D>>,
                         a: seq<TreeNode<D>>, ap: seq<Path>, b: seq<TreeNode<D>>, bp: seq<Path>)
    requires AtPaths(nodes, a, ap) && AtPaths(nodes, b, bp)
    ensures AtPaths(nodes, a + b, ap + bp)
  {}

  /** Exactly these paths are listed, each once, and none before one that extends it. */
  ghost predicate Lists(paths: seq<Path>, which: set<Path>) {
    && (forall q :: q in paths <==> q in which)
    && (forall i, j :: 0 <= i < j < |paths| ==> !(paths[i] <= paths[j]))
  }

  lemma ListsConcat(a: seq<Path>, b: seq<Path>, as_: set<Path>, bs: set<Path>)
    requires Lists(a, as_) && Lists(b, bs)
    requires forall q, r :: q in as_ && r in bs ==> !(q <= r)
    ensures Lists(a + b, as_ + bs)
  {
    forall i, j | 0 <= i < j < |a + b| ensures !((a + b)[i] <= (a + b)[j]) {
      if i < |a| <= j { assert a[i] in a && b[j - |a|] in b; }
    }
  }

  /** What was found below one child goes after what was found below the others. */
  lemma AppendSubtree(hits: set<Path>, p: Path, todo: set<string>, name: string, paths: seq<Path>, more: seq<Path>)
    requires name in todo
    requires Lists(paths, Done(hits, p, todo))
    requires Lists(more, FromHere(hits, Child(p, name)))
    ensures Lists(paths + more, Done(hits, p, todo - {name}))
  {
    var before, sub := Done(hits, p, todo), FromHere(hits, Child(p, name));
    forall q ensures Child(p, name) <= q <==> p < q && q[|p|] == name {
      ExtendsChild(p, name, q);
    }
    assert Done(hits, p, todo - {name}) == before + sub;
    forall q, r | q in before && r in sub ensures !(q <= r) {
      assert q[|p|] != r[|p|];
    }
    ListsConcat(paths, more, before, sub);
  }

  lemma ExtendsChild(p: Path, name: string, q: Path)
    ensures Child(p, name) <= q <==> p < q && q[|p|] == name
  {
    if p < q && q[|p|] == name { assert q[..|p| + 1] == Child(p, name); }
    if Child(p, name) <= q { assert q[..|p| + 1][..|p|] == q[..|p|] == p; }
  }

  lemma NotSelf<D>(nodes: map<Path, TreeNode<D>>, func: TreeNode<D> -> bool, p: Path)
    requires p !in Hits(nodes, func)
    ensures FromHere(Hits(nodes, func), p) == ProperlyBelow(Hits(nodes, func), p)
  {
    forall q | q in Hits(nodes, func) ensures p <= q <==> q == p || p < q {}
  }

  lemma AppendSelf<D>(nodes: map<Path, TreeNode<D>>, func: TreeNode<D> -> bool, paths: seq<Path>, p: Path)
    requires p in Hits(nodes, func) && Lists(paths, ProperlyBelow(Hits(nodes, func), p))
    ensures Lists(paths + [p], FromHere(Hits(nodes, func), p))
  {
    var below := ProperlyBelow(Hits(nodes, func), p);
    forall q | q in Hits(nodes, func) ensures p <= q <==> q == p || p < q {}
    assert FromHere(Hits(nodes, func), p) == below + {p};
    ListsConcat(paths, [p], below, {p});
  }

  /** What is properly below a node is below one of its children. */
  lemma BelowIsUnderChildren<D>(nodes: map<Path, TreeNode<D>>, root: TreeNode<D>, p: Path)
    requires Linked(nodes, root) && p in nodes
    ensures forall q :: q in nodes && p < q ==> q[|p|] in nodes[p].children
  {
    forall q | q in nodes && p < q ensures q[|p|] in nodes[p].children {
      PrefixIn(nodes, root, q, |p| + 1);
      assert q[..|p| + 1] == Child(p, q[|p|]);
    }
  }

  lemma SomeName(names: set<string>)
    requires names != {}
    ensures exists name :: name in names
  {
    assert (forall name :: name !in names) ==> names == {};
  }

  // -- the map a run of operations leaves

  /** After an add that is not refused, exactly the path and its prefixes are there besides what was;
      what was keeps its data, the path has the new data, and new prefixes have none. */
  lemma AddedPoints<T>(m: map<Path, Option<T>>, p: Path, data: Option<T>, q: Path)
    requires p != [] && Refusal(m, p) == None
    ensures q in Added(m, p, data) <==> q in m || (q != [] && q <= p)
    ensures q in Added(m, p, data) ==> Added(m, p, data)[q] == if q == p then data else if q in m then m[q] else None
  {
    PrefixesAdded(m, p[..|p| - 1], q);
    assert q <= p <==> q == p || q <= p[..|p| - 1];
  }

  /** An add stopped by an empty name has created the nodes before it. */
  lemma StoppedPoints<T>(m: map<Path, Option<T>>, p: Path, data: Option<T>, q: Path)
    requires p != [] && Refusal(m, p) == Some(EmptyNameError)
    ensures q in Added(m, p, data) <==> q in m || (q != [] && q <= p && |q| <= FirstEmpty(p, 0))
    ensures q in Added(m, p, data) ==> Added(m, p, data)[q] == if q in m then m[q] else None
  {
    var k := FirstEmpty(p, 0);
    PrefixesAdded(m, p[..k], q);
    assert q <= p[..k] <==> q <= p && |q| <= k;
  }

  /** A refused add leaves the map as it was exactly when the name exists, or when everything before
      the first empty name was there already. */
  lemma RefusedUnchanged<T>(m: map<Path, Option<T>>, p: Path, data: Option<T>)
    requires PrefixClosed(m) && [] in m && p != [] && Refusal(m, p).Some?
    ensures Added(m, p, data) == m <==> Refusal(m, p) == Some(NameExistsError) || p[..FirstEmpty(p, 0)] in m
  {
    var front := p[..FirstEmpty(p, 0)];
    if Refusal(m, p) == Some(EmptyNameError) {
      PrefixesAdded(m, front, front);
      if front in m {
        forall n | 0 <= n <= |front| ensures front[..n] in m {}
        NothingMissing(m, front);
      }
    }
  }

  /** Every operation keeps the map closed under prefixes. */
  lemma StaysClosed<T>(m: map<Path, Option<T>>, p: Path, data: Option<T>)
    requires PrefixClosed(m) && [] in m && p != []
    ensures PrefixClosed(Added(m, p, data)) && PrefixClosed(Without(m, p))
  {
    var added := Added(m, p, data);
    forall q, n | q in added && 0 <= n <= |q| ensures q[..n] in added {
      if Refusal(m, p) == None {
        AddedPoints(m, p, data, q);
        AddedPoints(m, p, data, q[..n]);
      } else if Refusal(m, p) == Some(EmptyNameError) {
        StoppedPoints(m, p, data, q);
        StoppedPoints(m, p, data, q[..n]);
      }
    }
    forall q, n | q in Without(m, p) && 0 <= n <= |q| ensures q[..n] in Without(m, p) {
      assert p <= q[..n] ==> p <= q;
    }
  }

  /** Removing a path just added leaves the map as it was, but for prefixes the add created. */
  lemma RemoveUndoesAdd<T>(m: map<Path, Option<T>>, p: Path, data: Option<T>)
    requires PrefixClosed(m) && p != [] && Refusal(m, p) == None
    ensures Without(Added(m, p, data), p) == WithPrefixes(m, p[..|p| - 1])
    ensures p[..|p| - 1] in m && [] in m ==> Without(Added(m, p, data), p) == m
  {
    var front := p[..|p| - 1];
    var prefixes := WithPrefixes(m, front);
    forall q | q in prefixes ensures !(p <= q) {
      PrefixesAdded(m, front, q);
      assert q in m || |q| < |p|;
      if q in m && |p| <= |q| { assert q[..|p|] in m && q[..|p|] != p; }
    }
    if front in m && [] in m {
      forall n | 0 <= n <= |front| ensures front[..n] in m {}
      NothingMissing(m, front);
    }
  }
}

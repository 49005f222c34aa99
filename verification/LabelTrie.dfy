/** The backtracking trie that holds the patterns with several `*` labels and no `**`. */
module LabelTries {
  import opened Labels
  import opened Glob

  class TrieNode {
    var children: map<string, TrieNode>
    var wildcardChild: TrieNode?
    var value: Option<nat>

    constructor ()
      ensures children == map[] && wildcardChild == null && value == None
    {
      children := map[];
      wildcardChild := null;
      value := None;
    }
  }

  /** `key` is stored, extends `path`, and its labels beyond `path` accept the host's. */
  ghost predicate Under(contents: map<seq<string>, nat>, path: seq<string>, host: seq<string>, key: seq<string>) {
    && key in contents
    && |key| == |host|
    && path <= key
    && forall i | |path| <= i < |key| :: Accepts(key[i], host[i])
  }

  /** Of all stored patterns under `path` that accept the host, `key` is the one with the earliest literals. */
  ghost predicate Chosen(contents: map<seq<string>, nat>, path: seq<string>, host: seq<string>, key: seq<string>) {
    && Under(contents, path, host, key)
    && forall other | Under(contents, path, host, other) && other != key :: LiteralFirst(key, other)
  }

  ghost predicate Found(contents: map<seq<string>, nat>, path: seq<string>, host: seq<string>, r: Option<nat>) {
    match r
    case None => forall key :: !Under(contents, path, host, key)
    case Some(v) => exists key :: Chosen(contents, path, host, key) && contents[key] == v
  }

  /** Searching below a node is searching its literal child first and its wildcard child second. */
  lemma FoundBelow(contents: map<seq<string>, nat>, path: seq<string>, host: seq<string>,
                   viaChild: Option<nat>, viaWildcard: Option<nat>)
    requires |path| < |host|
    requires host[|path|] == "*" ==> viaChild == None
    requires host[|path|] != "*" ==> Found(contents, path + [host[|path|]], host, viaChild)
    requires viaChild == None ==> Found(contents, path + ["*"], host, viaWildcard)
    ensures Found(contents, path, host, if viaChild.Some? then viaChild else viaWildcard)
  {
    var n, part := |path|, host[|path|];
    forall key | Under(contents, path, host, key)
      ensures Under(contents, path + [part], host, key) || Under(contents, path + ["*"], host, key)
    {
      assert Accepts(key[n], part);
      assert key[..n + 1] == path + [key[n]];
    }
    forall key, part' | Accepts(part', part) && Under(contents, path + [part'], host, key)
      ensures Under(contents, path, host, key) && key[n] == part' && key[..n] == path
    {
      assert (path + [part'])[n] == part';
      assert key[..n + 1] == path + [part'];
      assert key[..n] == key[..n + 1][..n];
    }
    if viaChild.Some? {
      var key :| Chosen(contents, path + [part], host, key) && contents[key] == viaChild.value;
      forall other | Under(contents, path, host, other) && other != key
        ensures LiteralFirst(key, other)
      {
        if !Under(contents, path + [part], host, other) {
          assert DivergesAt(key, other, n);
        }
      }
      assert Chosen(contents, path, host, key);
    } else if viaWildcard.Some? {
      var key :| Chosen(contents, path + ["*"], host, key) && contents[key] == viaWildcard.value;
      assert Accepts("*", part);
      assert Chosen(contents, path, host, key);
    }
  }

  ghost predicate PrefixClosed(nodes: map<seq<string>, TrieNode>) {
    forall p, k | p in nodes && 0 <= k <= |p| :: p[..k] in nodes
  }

  /** The edges leaving a node are exactly the one-label extensions of its path. */
  ghost predicate EdgesOk(nodes: map<seq<string>, TrieNode>, p: seq<string>,
                          children: map<string, TrieNode>, wildcardChild: TrieNode?) {
    && "*" !in children
    && (forall l | l in children :: p + [l] in nodes && children[l] == nodes[p + [l]])
    && (wildcardChild != null ==> p + ["*"] in nodes && wildcardChild == nodes[p + ["*"]])
    && (forall l | p + [l] in nodes :: if l == "*" then wildcardChild != null else l in children)
  }

  /** Adding the node at `path + [l]` keeps the edges of every other node, given the new edge at `path`. */
  lemma EdgesAfterAdd(nodes: map<seq<string>, TrieNode>, path: seq<string>, l: string, next: TrieNode,
                      p: seq<string>, children: map<string, TrieNode>, wildcardChild: TrieNode?)
    requires path + [l] !in nodes && EdgesOk(nodes, p, children, wildcardChild)
    ensures p != path ==> EdgesOk(nodes[path + [l] := next], p, children, wildcardChild)
    ensures p == path ==>
              if l == "*" then EdgesOk(nodes[path + [l] := next], p, children, next)
              else EdgesOk(nodes[path + [l] := next], p, children[l := next], wildcardChild)
  {
    forall x | p + [x] == path + [l] ensures p == path && x == l {
      assert (p + [x])[..|p|] == p && (path + [l])[..|path|] == path;
      assert (p + [x])[|p|] == x && (path + [l])[|path|] == l;
    }
  }

  /** A node just added is a leaf, and paths stay closed under prefixes. */
  lemma ShapeAfterAdd(nodes: map<seq<string>, TrieNode>, path: seq<string>, l: string, next: TrieNode)
    requires PrefixClosed(nodes) && path in nodes && path + [l] !in nodes
    ensures PrefixClosed(nodes[path + [l] := next])
    ensures EdgesOk(nodes[path + [l] := next], path + [l], map[], null)
  {
    var extended := path + [l];
    forall p, k | p in nodes[extended := next] && 0 <= k <= |p|
      ensures p[..k] in nodes[extended := next]
    {
      if p == extended {
        if k == |p| { assert p[..k] == p; } else { assert p[..k] == path[..k]; }
      }
    }
    forall x ensures extended + [x] !in nodes[extended := next] {
      assert (extended + [x])[..|extended|] == extended;
    }
  }

  class LabelTrie {
    const root: TrieNode
    /** The node reached by each label path, `"*"` standing for a wildcard edge. */
    ghost var nodes: map<seq<string>, TrieNode>
    /** The finite map from label sequences that the trie represents. */
    ghost var contents: map<seq<string>, nat>
    ghost var Repr: set<object>

    ghost predicate Valid()
      reads this, Repr
    {
      && this in Repr
      && Shape()
      && (forall p {:trigger NodeOk(p)} | p in nodes :: NodeOk(p))
      && contents.Keys <= nodes.Keys
      && forall p {:trigger nodes[p].value} | p in nodes ::
           nodes[p].value == if p in contents then Some(contents[p]) else None
    }

    /** Paths start at the root, are closed under prefixes and lead to distinct nodes. */
    ghost predicate Shape()
      reads this
    {
      && [] in nodes && nodes[[]] == root
      && (forall p | p in nodes :: nodes[p] in Repr && nodes[p] as object != this)
      && PrefixClosed(nodes)
      && (forall p, q | p in nodes && q in nodes && nodes[p] == nodes[q] :: p == q)
    }

    ghost predicate NodeOk(p: seq<string>)
      requires p in nodes
      reads this, nodes[p]
    {
      EdgesOk(nodes, p, nodes[p].children, nodes[p].wildcardChild)
    }

    constructor ()
      ensures Valid() && fresh(Repr)
      ensures contents == map[]
    {
      root := new TrieNode();
      new;
      nodes := map[[] := root];
      contents := map[];
      Repr := {this, root};
    }

    /** A stored pattern forces every edge on its path to exist. */
    lemma EdgeExists(path: seq<string>, host: seq<string>, key: seq<string>, l: string)
      requires Valid() && |path| < |host| && path in nodes
      requires Under(contents, path + [l], host, key)
      ensures if l == "*" then nodes[path].wildcardChild != null else l in nodes[path].children
    {
      assert key in nodes && NodeOk(path);
      assert key[..|path| + 1] == path + [l];
    }

    /** `lookup_from`: literal child first, then the wildcard child. */
    function LookupFrom(node: TrieNode, ghost path: seq<string>, hostLabels: seq<string>, pos: nat): (r: Option<nat>)
      requires Valid() && path in nodes && nodes[path] == node
      requires pos == |path| <= |hostLabels|
      reads this, Repr
      ensures Found(contents, path, hostLabels, r)
      decreases |hostLabels| - pos
    {
      if pos == |hostLabels| then
        assert forall key | Under(contents, path, hostLabels, key) :: key == path;
        assert node.value.Some? ==> Chosen(contents, path, hostLabels, path);
        node.value
      else
        assert NodeOk(path);
        var part := hostLabels[pos];
        var viaChild :=
          if part in node.children then LookupFrom(node.children[part], path + [part], hostLabels, pos + 1) else None;
        assert part !in node.children && part != "*" ==> Found(contents, path + [part], hostLabels, None) by {
          forall key | Under(contents, path + [part], hostLabels, key) ensures part == "*" || part in node.children {
            EdgeExists(path, hostLabels, key, part);
          }
        }
        if viaChild.Some? then
          FoundBelow(contents, path, hostLabels, viaChild, None);
          viaChild
        else
          var viaWildcard :=
            if node.wildcardChild != null then LookupFrom(node.wildcardChild, path + ["*"], hostLabels, pos + 1)
            else None;
          assert node.wildcardChild == null ==> Found(contents, path + ["*"], hostLabels, None) by {
            forall key | Under(contents, path + ["*"], hostLabels, key) ensures node.wildcardChild != null {
              EdgeExists(path, hostLabels, key, "*");
            }
          }
          FoundBelow(contents, path, hostLabels, viaChild, viaWildcard);
          viaWildcard
    }

    /** `lookup`: of the stored patterns that fit the host, the one whose literals come earliest. */
    function Lookup(hostLabels: seq<string>): (r: Option<nat>)
      requires Valid()
      reads this, Repr
      ensures r.None? ==> forall key | key in contents :: !Fits(key, hostLabels)
      ensures r.Some? ==> exists key :: key in contents && contents[key] == r.value && Fits(key, hostLabels) &&
                            forall other | other in contents && Fits(other, hostLabels) && other != key ::
                              LiteralFirst(key, other)
    {
      var r := LookupFrom(root, [], hostLabels, 0);
      assert forall key | key in contents && Fits(key, hostLabels) :: Under(contents, [], hostLabels, key);
      assert r.Some? ==> exists key :: Chosen(contents, [], hostLabels, key) && contents[key] == r.value;
      r
    }

    /** One step of the walk: make sure the edge `l` leaves the node at `path`, adding a node if it does not. */
    method Descend(node: TrieNode, ghost path: seq<string>, l: string) returns (next: TrieNode)
      requires Valid() && path in nodes && nodes[path] == node
      modifies this, node
      ensures Valid() && fresh(Repr - old(Repr)) && old(Repr) <= Repr
      ensures contents == old(contents)
      ensures path + [l] in nodes && nodes[path + [l]] == next
    {
      assert NodeOk(path);
      if l == "*" && node.wildcardChild != null {
        return node.wildcardChild;
      }
      if l != "*" && l in node.children {
        return node.children[l];
      }
      next := AddChild(node, path, l);
    }

    /** Hang a fresh node on a missing edge. */
    method AddChild(node: TrieNode, ghost path: seq<string>, l: string) returns (next: TrieNode)
      requires Valid() && path in nodes && nodes[path] == node && path + [l] !in nodes
      modifies this`nodes, this`Repr, node`children, node`wildcardChild
      ensures Valid() && fresh(Repr - old(Repr)) && old(Repr) <= Repr
      ensures nodes == old(nodes)[path + [l] := next]
    {
      next := new TrieNode();
      ShapeAfterAdd(nodes, path, l, next);
      if l == "*" {
        node.wildcardChild := next;
      } else {
        node.children := node.children[l := next];
      }
      nodes := nodes[path + [l] := next];
      Repr := Repr + {next};
      assert Shape();
      forall p | p in nodes ensures NodeOk(p) {
        if p in old(nodes) {
          assert old(NodeOk(p));
          assert p != path ==> nodes[p] != node;
          EdgesAfterAdd(old(nodes), path, l, next, p, old(nodes[p].children), old(nodes[p].wildcardChild));
        }
      }
    }

    /** `insert`: the first value registered for a pattern stays. */
    method Insert(patternLabels: seq<string>, index: nat)
      requires Valid()
      modifies Repr
      ensures Valid() && fresh(Repr - old(Repr)) && old(Repr) <= Repr
      ensures contents == if patternLabels in old(contents) then old(contents)
                          else old(contents)[patternLabels := index]
    {
      var node := root;
      for i := 0 to |patternLabels|
        invariant Valid() && fresh(Repr - old(Repr)) && old(Repr) <= Repr
        invariant contents == old(contents)
        invariant patternLabels[..i] in nodes && nodes[patternLabels[..i]] == node
      {
        assert patternLabels[..i + 1] == patternLabels[..i] + [patternLabels[i]];
        node := Descend(node, patternLabels[..i], patternLabels[i]);
      }
      assert patternLabels[..|patternLabels|] == patternLabels;
      if node.value.None? {
        SetValue(node, patternLabels, index);
      }
    }

    /** Store a value at a node that has none. */
    method SetValue(node: TrieNode, ghost path: seq<string>, index: nat)
      requires Valid() && path in nodes && nodes[path] == node && node.value == None
      modifies this`contents, node`value
      ensures Valid() && contents == old(contents)[path := index]
    {
      node.value := Some(index);
      contents := contents[path := index];
      forall p | p in nodes ensures NodeOk(p) {
        assert old(NodeOk(p));
      }
    }
  }
}

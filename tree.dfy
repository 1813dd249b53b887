/** The byte-keyed trie of package `internal/radix` (tree.go). Each node
    holds an optional value (Go's nil interface is None) and a list of
    labelled edges to child nodes; Get and Set walk the key one byte at a
    time from the root, and Set creates the missing nodes on its way.

    The ghost index of a tree (module RadixIndex) records the node, the
    edges and the value reached by every path of the trie; Valid() ties it
    to the nodes on the heap, and Contents() is the tree's meaning: the map
    from keys to the values stored at the end of their paths. */
module RadixNode {
  import opened GoInts
  import opened Wrappers

  datatype Error = ErrNotFound | ErrInvalidKey

  datatype Edge<V> = Edge(symbol: byte, node: Node<V>)

  /** The node the first edge labelled l leads to, null when there is none:
      what findChild returns. */
  function Lookup<V>(edges: seq<Edge<V>>, l: byte): (r: Node?<V>)
    ensures r == null <==> forall j :: 0 <= j < |edges| ==> edges[j].symbol != l
    ensures r != null ==> exists j :: 0 <= j < |edges| && edges[j] == Edge(l, r)
  {
    if |edges| == 0 then null
    else if edges[0].symbol == l then edges[0].node
    else
      var r := Lookup(edges[1..], l);
      assert forall j :: 1 <= j < |edges| ==> edges[j] == edges[1..][j - 1];
      r
  }

  /** No two edges share a label. */
  predicate DistinctLabels<V>(edges: seq<Edge<V>>)
  {
    forall a, b :: 0 <= a < b < |edges| ==> edges[a].symbol != edges[b].symbol
  }

  /** Appending an edge for a label with no edge yet makes that label lead
      to the new node, changes no other label and keeps the labels
      distinct. */
  lemma {:induction false} LookupAppend<V>(edges: seq<Edge<V>>, e: Edge<V>, l: byte)
    requires Lookup(edges, e.symbol) == null
    ensures Lookup(edges + [e], l) == if l == e.symbol then e.node else Lookup(edges, l)
    ensures DistinctLabels(edges) ==> DistinctLabels(edges + [e])
  {
    if |edges| > 0 {
      assert (edges + [e])[1..] == edges[1..] + [e];
      LookupAppend(edges[1..], e, l);
    }
  }

  class Node<V> {
    var value: Option<V>
    var edges: seq<Edge<V>>

    /** `new(node)`: no value, no edges. */
    constructor ()
      ensures value == None && edges == []
    {
      value := None;
      edges := [];
    }

    /** `findChild`: the node of the first edge labelled l, or null. */
    method FindChild(l: byte) returns (child: Node?<V>)
      ensures child == Lookup(edges, l)
    {
      var i := 0;
      while i < |edges|
        invariant 0 <= i <= |edges|
        invariant Lookup(edges, l) == Lookup(edges[i..], l)
      {
        if edges[i].symbol == l {
          return edges[i].node;
        }
        assert edges[i..][1..] == edges[i + 1..];
        i := i + 1;
      }
      return null;
    }

    /** `newChild`: appends an edge labelled l to a fresh empty node. */
    method NewChild(l: byte) returns (child: Node<V>)
      modifies this`edges
      ensures fresh(child) && child.value == None && child.edges == []
      ensures edges == old(edges) + [Edge(l, child)]
    {
      child := new Node();
      edges := edges + [Edge(l, child)];
    }

    /** `isLeaf`: the node holds a value. */
    predicate IsLeaf()
      reads this
      ensures IsLeaf() <==> value.Some?
    {
      value.Some?
    }
  }
}

module RadixIndex {
  import opened GoInts
  import opened Wrappers
  import opened RadixNode

  /** The empty path is a path and every prefix of a path is a path. */
  ghost predicate Closed<V>(nodes: map<seq<byte>, Node<V>>)
  {
    [] in nodes && forall p, k | p in nodes && 0 <= k <= |p| :: p[..k] in nodes
  }

  /** Distinct paths lead to distinct nodes: ids maps each node back to
      its path. */
  ghost predicate Indexed<V>(nodes: map<seq<byte>, Node<V>>, ids: map<Node<V>, seq<byte>>)
  {
    forall p | p in nodes :: nodes[p] in ids && ids[nodes[p]] == p
  }

  /** The edges of the node at path p are exactly its one-byte extensions,
      each leading to the node of the extended path. */
  ghost predicate Links<V>(nodes: map<seq<byte>, Node<V>>, p: seq<byte>, edges: seq<Edge<V>>)
  {
    DistinctLabels(edges) &&
    (forall l: byte {:trigger Lookup(edges, l)} :: Lookup(edges, l) == null <==> p + [l] !in nodes) &&
    (forall l: byte {:trigger Lookup(edges, l)} | p + [l] in nodes :: nodes[p + [l]] == Lookup(edges, l))
  }

  /** A new path one byte below a path keeps the paths closed. */
  lemma ExtendClosed<V>(nodes: map<seq<byte>, Node<V>>, p: seq<byte>, l: byte, x: Node<V>)
    requires Closed(nodes) && p in nodes
    ensures Closed(nodes[p + [l] := x])
  {
    var c := p + [l];
    var ns := nodes[c := x];
    forall q, k | q in ns && 0 <= k <= |q|
      ensures q[..k] in ns
    {
      if q == c && k <= |p| {
        assert q[..k] == p[..k];
      } else if q == c {
        assert q[..k] == c;
      }
    }
  }

  /** A new path p + [l] changes the extensions of no path but p. */
  lemma ExtendLinks<V>(nodes: map<seq<byte>, Node<V>>, q: seq<byte>, e: seq<Edge<V>>, p: seq<byte>, l: byte, x: Node<V>)
    requires q != p && Links(nodes, q, e)
    ensures Links(nodes[p + [l] := x], q, e)
  {
    forall m: byte
      ensures q + [m] != p + [l]
    {
      if |q| == |p| {
        assert (q + [m])[..|q|] == q && (p + [l])[..|p|] == p;
      }
    }
  }

  /** Appending the edge for p + [l] to the edges of p keeps them exact. */
  lemma ExtendParent<V>(nodes: map<seq<byte>, Node<V>>, p: seq<byte>, l: byte, x: Node<V>, es: seq<Edge<V>>)
    requires Links(nodes, p, es) && p + [l] !in nodes
    ensures Links(nodes[p + [l] := x], p, es + [Edge(l, x)])
  {
    LookupAppend(es, Edge(l, x), l);
    forall m: byte
      ensures Lookup(es + [Edge(l, x)], m) == if m == l then x else Lookup(es, m)
      ensures m != l ==> p + [m] != p + [l]
    {
      LookupAppend(es, Edge(l, x), m);
      assert (p + [m])[|p|] == m;
    }
  }

  /** A new path below which there is nothing has no edges. */
  lemma NewLeafLinks<V>(nodes: map<seq<byte>, Node<V>>, p: seq<byte>, l: byte, x: Node<V>)
    requires Closed(nodes) && p + [l] !in nodes
    ensures Links(nodes[p + [l] := x], p + [l], [])
  {
    var c := p + [l];
    forall m: byte
      ensures c + [m] !in nodes[c := x] && Lookup<V>([], m) == null
    {
      assert (c + [m])[..|c|] == c;
    }
  }

  /** The shape of a trie: the paths are closed under prefixes and lead to
      distinct nodes, and kids[p] are the edges of the node at path p. */
  ghost predicate Shape<V>(nodes: map<seq<byte>, Node<V>>, kids: map<seq<byte>, seq<Edge<V>>>)
  {
    Closed(nodes) && kids.Keys == nodes.Keys &&
    forall p {:trigger kids[p]} | p in nodes :: Links(nodes, p, kids[p])
  }

  /** Hanging a new node x by an edge labelled l below the node of path p,
      for a label p has no edge for, keeps the shape of a trie. */
  lemma ExtendShape<V>(nodes: map<seq<byte>, Node<V>>, kids: map<seq<byte>, seq<Edge<V>>>, p: seq<byte>, l: byte, x: Node<V>)
    requires Shape(nodes, kids) && p in nodes && Lookup(kids[p], l) == null
    ensures p + [l] !in nodes
    ensures Shape(nodes[p + [l] := x], kids[p := kids[p] + [Edge(l, x)]][p + [l] := []])
  {
    var c := p + [l];
    var ns := nodes[c := x];
    var ks := kids[p := kids[p] + [Edge(l, x)]][c := []];
    assert c != p by {
      assert |c| == |p| + 1;
    }
    forall q | q in ns
      ensures Links(ns, q, ks[q])
    {
      if q == c {
        NewLeafLinks(nodes, p, l, x);
      } else if q == p {
        ExtendParent(nodes, p, l, x, kids[p]);
      } else {
        ExtendLinks(nodes, q, kids[q], p, l, x);
      }
    }
    ExtendClosed(nodes, p, l, x);
  }


  /** The paths whose nodes hold a value, with those values. */
  ghost function Leaves<V>(vals: map<seq<byte>, Option<V>>): map<seq<byte>, V>
  {
    map p | p in vals && vals[p].Some? :: vals[p].value
  }

  /** Storing a value at a path adds or replaces that key; storing nil
      removes it. */
  lemma StoreLeaves<V>(vals: map<seq<byte>, Option<V>>, key: seq<byte>, v: Option<V>)
    ensures v.Some? ==> Leaves(vals[key := v]) == Leaves(vals)[key := v.value]
    ensures v.None? ==> Leaves(vals[key := v]) == Leaves(vals) - {key}
  {
    if v.Some? {
      assert Leaves(vals[key := v]).Keys == Leaves(vals).Keys + {key};
    } else {
      assert Leaves(vals[key := v]).Keys == Leaves(vals).Keys - {key};
    }
  }

  /** The ghost index of a tree: the node, the edges and the value of every
      path, and the path of every node. */
  datatype Index<V> = Index(nodes: map<seq<byte>, Node<V>>, kids: map<seq<byte>, seq<Edge<V>>>,
                            vals: map<seq<byte>, Option<V>>, ids: map<Node<V>, seq<byte>>)

  /** The index describes a trie whose root is root. */
  ghost predicate Inv<V>(root: Node<V>, ix: Index<V>)
  {
    [] in ix.nodes && ix.nodes[[]] == root &&
    Shape(ix.nodes, ix.kids) && Indexed(ix.nodes, ix.ids) && ix.vals.Keys == ix.nodes.Keys
  }

  /** The nodes, all in R, hold the edges and values the index records. */
  ghost predicate Agree<V>(ix: Index<V>, R: set<Node<V>>)
    reads R
  {
    forall p | p in ix.nodes ::
      ix.nodes[p] in R && p in ix.kids && p in ix.vals &&
      ix.nodes[p].edges == ix.kids[p] && ix.nodes[p].value == ix.vals[p]
  }

  /** The index after a new node x, with no value and no edges, is hung
      below the node of path p by an edge labelled l. */
  ghost function Grow<V>(ix: Index<V>, p: seq<byte>, l: byte, x: Node<V>): (r: Index<V>)
    requires p in ix.kids
    ensures r.nodes == ix.nodes[p + [l] := x]
  {
    Index(ix.nodes[p + [l] := x], ix.kids[p := ix.kids[p] + [Edge(l, x)]][p + [l] := []],
          ix.vals[p + [l] := None], ix.ids[x := p + [l]])
  }

  /** Growing the index at a label p has no edge for, by a node that is not
      in it yet, keeps the invariant and stores nothing. */
  lemma GrowInv<V>(root: Node<V>, ix: Index<V>, p: seq<byte>, l: byte, x: Node<V>)
    requires Inv(root, ix) && p in ix.nodes && Lookup(ix.kids[p], l) == null
    requires x !in ix.ids
    ensures p + [l] !in ix.nodes
    ensures Inv(root, Grow(ix, p, l, x))
  {
    ExtendShape(ix.nodes, ix.kids, p, l, x);
  }

  /** A new path holds no value, so growing the index stores nothing new. */
  lemma GrowLeaves<V>(ix: Index<V>, p: seq<byte>, l: byte, x: Node<V>)
    requires p in ix.kids && p + [l] !in ix.vals
    ensures Leaves(Grow(ix, p, l, x).vals) == Leaves(ix.vals)
  {
    StoreLeaves(ix.vals, p + [l], None);
  }

  /** After newChild has hung the new node x below the node of path p, and
      nothing else about the nodes has changed, the nodes agree with the
      grown index. */
  twostate lemma GrowAgree<V>(new ix: Index<V>, new R: set<Node<V>>, new p: seq<byte>, new l: byte, new x: Node<V>)
    requires old(allocated(ix)) && old(allocated(R))
    requires old(Agree(ix, R)) && p in ix.nodes && x !in R
    requires forall q | q in ix.nodes && q != p :: ix.nodes[q] != ix.nodes[p]
    requires forall o | o in R && o != ix.nodes[p] :: unchanged(o)
    requires ix.nodes[p].edges == old(ix.nodes[p].edges) + [Edge(l, x)]
    requires ix.nodes[p].value == old(ix.nodes[p].value)
    requires x.edges == [] && x.value == None
    ensures Agree(Grow(ix, p, l, x), R + {x})
  {
  }

  /** The prefixes of a key grow one byte at a time, up to the key. */
  lemma Prefixes(key: seq<byte>, i: nat)
    requires i <= |key|
    ensures i < |key| ==> key[..i + 1] == key[..i] + [key[i]]
    ensures i == |key| ==> key[..i] == key
    ensures key[..0] == []
  {
  }

  /** Distinct paths lead to distinct nodes. */
  lemma Unique<V>(root: Node<V>, ix: Index<V>, p: seq<byte>)
    requires Inv(root, ix) && p in ix.nodes
    ensures forall q | q in ix.nodes && q != p :: ix.nodes[q] != ix.nodes[p]
  {
  }

  /** After the value of the node x at path key has changed, and nothing
      else about the nodes, the nodes agree with the index that records the
      new value. */
  twostate lemma StoreAgree<V>(new ix: Index<V>, new R: set<Node<V>>, new key: seq<byte>, new x: Node<V>)
    requires old(allocated(ix)) && old(allocated(R))
    requires old(Agree(ix, R)) && key in ix.nodes && ix.nodes[key] == x
    requires forall q | q in ix.nodes && q != key :: ix.nodes[q] != x
    requires forall o | o in R && o != x :: unchanged(o)
    requires x.edges == old(x.edges)
    ensures Agree(ix.(vals := ix.vals[key := x.value]), R)
  {
  }
}

module Radix {
  import opened GoInts
  import opened Wrappers
  import opened RadixNode
  import opened RadixIndex

  class Tree<V> {
    var root: Node<V>
    // the ghost index of the trie and the objects it is made of
    ghost var ix: Index<V>
    ghost var Repr: set<Node<V>>

    ghost predicate Valid()
      reads this, Repr
    {
      Inv(root, ix) && Agree(ix, Repr)
    }

    /** What the tree stores: the keys whose nodes hold a value. */
    ghost function Contents(): map<seq<byte>, V>
      reads this
    {
      Leaves(ix.vals)
    }

    /** `NewTree`: a tree with only an empty root. */
    constructor ()
      ensures Valid() && fresh(Repr)
      ensures Contents() == map[]
    {
      var r := new Node();
      root := r;
      ix := Index(map[[] := r], map[[] := []], map[[] := None], map[r := []]);
      Repr := {r};
      new;
      assert forall p | p in ix.nodes :: p == [];
      assert Contents().Keys == {};
    }

    /** `Get`: ErrInvalidKey for the empty key; the value stored under key,
        or ErrNotFound when the path is missing or its node holds no value. */
    method Get(key: seq<byte>) returns (v: Option<V>, err: Option<Error>)
      requires Valid()
      ensures |key| == 0 ==> v == None && err == Some(ErrInvalidKey)
      ensures |key| > 0 && key in Contents() ==> v == Some(Contents()[key]) && err == None
      ensures |key| > 0 && key !in Contents() ==> v == None && err == Some(ErrNotFound)
    {
      if |key| == 0 {
        return None, Some(ErrInvalidKey);
      }
      var cur := root;
      var i := 0;
      Prefixes(key, 0);
      while i < |key|
        invariant 0 <= i <= |key|
        invariant key[..i] in ix.nodes && ix.nodes[key[..i]] == cur
      {
        var child := cur.FindChild(key[i]);
        Prefixes(key, i);
        if child == null {
          assert key[..i + 1] !in ix.nodes;
          assert key !in ix.nodes;
          return None, Some(ErrNotFound);
        }
        cur := child;
        i := i + 1;
      }
      Prefixes(key, i);
      if cur.IsLeaf() {
        return cur.value, None;
      }
      return None, Some(ErrNotFound);
    }

    /** `Set`: ErrInvalidKey for the empty key, with the tree unchanged;
        otherwise the path of key is created as needed and its node's value
        replaced. Presence means a value other than nil, so setting None
        removes the key. */
    method Set(key: seq<byte>, value: Option<V>) returns (err: Option<Error>)
      requires Valid()
      modifies this, Repr
      ensures Valid() && fresh(Repr - old(Repr))
      ensures |key| == 0 ==> err == Some(ErrInvalidKey) && Contents() == old(Contents())
      ensures |key| > 0 ==> err == None
      ensures |key| > 0 && value.Some? ==> Contents() == old(Contents())[key := value.value]
      ensures |key| > 0 && value.None? ==> Contents() == old(Contents()) - {key}
    {
      if |key| == 0 {
        return Some(ErrInvalidKey);
      }
      Prefixes(key, 0);
      var cur := Walk(root, key, 0);
      Store(cur, key, value);
      return None;
    }

    /** Set's walk from the node cur at path key[..i] along the rest of
        key, creating the missing nodes: the tree stores what it stored,
        and leaf is the node at path key. */
    method Walk(cur: Node<V>, key: seq<byte>, i: nat) returns (leaf: Node<V>)
      requires Valid() && i <= |key| && key[..i] in ix.nodes && ix.nodes[key[..i]] == cur
      modifies this, Repr
      ensures Valid() && (forall o | o in Repr && o !in old(Repr) :: fresh(o)) && Contents() == old(Contents())
      ensures key in ix.nodes && ix.nodes[key] == leaf
      decreases |key| - i
    {
      if i == |key| {
        Prefixes(key, i);
        return cur;
      }
      Prefixes(key, i);
      var child := Descend(cur, key[..i], key[i]);
      leaf := Walk(child, key, i + 1);
    }

    /** One step of Set's walk: the child of the node cur at path p by the
        edge labelled l, created when missing. */
    method Descend(cur: Node<V>, p: seq<byte>, l: byte) returns (child: Node<V>)
      requires Valid() && p in ix.nodes && ix.nodes[p] == cur
      modifies this`ix, this`Repr, cur`edges
      ensures Valid() && (forall o | o in Repr && o !in old(Repr) :: fresh(o)) && Contents() == old(Contents())
      ensures p + [l] in ix.nodes && ix.nodes[p + [l]] == child
    {
      var c := cur.FindChild(l);
      if c == null {
        c := Hang(cur, p, l);
      }
      return c;
    }

    /** newChild on the node cur at path p, with the index grown to match. */
    method Hang(cur: Node<V>, p: seq<byte>, l: byte) returns (child: Node<V>)
      requires Valid() && p in ix.nodes && ix.nodes[p] == cur && Lookup(cur.edges, l) == null
      modifies this`ix, this`Repr, cur`edges
      ensures Valid() && (forall o | o in Repr && o !in old(Repr) :: fresh(o)) && Contents() == old(Contents())
      ensures p + [l] in ix.nodes && ix.nodes[p + [l]] == child
    {
      Unique(root, ix, p);
      child := cur.NewChild(l);
      GrowInv(root, ix, p, l, child);
      GrowLeaves(ix, p, l, child);
      GrowAgree(ix, Repr, p, l, child);
      ix := Grow(ix, p, l, child);
      Repr := Repr + {child};
    }

    /** The end of Set's walk: the value of the node cur at path key is
        replaced. */
    method Store(cur: Node<V>, key: seq<byte>, value: Option<V>)
      requires Valid() && key in ix.nodes && ix.nodes[key] == cur
      modifies cur`value, this`ix
      ensures Valid() && Repr == old(Repr)
      ensures value.Some? ==> Contents() == old(Contents())[key := value.value]
      ensures value.None? ==> Contents() == old(Contents()) - {key}
    {
      Unique(root, ix, key);
      cur.value := value;
      StoreAgree(ix, Repr, key, cur);
      StoreLeaves(ix.vals, key, value);
      ix := ix.(vals := ix.vals[key := value]);
    }
    /** The package's tree test, step by step. On a new tree, whose
        contents are empty, "hello" is not found. */
    static method TestGetMissing(t: Tree<string>)
      requires t.Valid() && t.Contents() == map[]
      ensures t.Valid() && t.Contents() == map[]
    {
      var v, err := t.Get(Hello);
      assert v == None && err == Some(ErrNotFound);
    }

    /** After "hello" is set to "world" it reads "world". */
    static method TestInsert(t: Tree<string>)
      requires t.Valid() && t.Contents() == map[]
      modifies t, t.Repr
      ensures t.Valid() && t.Contents() == map[Hello := "world"]
    {
      var err := t.Set(Hello, Some("world"));
      assert err == None;
      var v;
      v, err := t.Get(Hello);
      assert v == Some("world") && err == None;
    }

    /** The prefix "he" of "hello" is a path without a value: not found. */
    static method TestGetPrefix(t: Tree<string>)
      requires t.Valid() && t.Contents() == map[Hello := "world"]
      ensures t.Valid() && t.Contents() == map[Hello := "world"]
    {
      assert |[0x68, 0x65]| != |Hello|;
      var v, err := t.Get([0x68, 0x65]);
      assert v == None && err == Some(ErrNotFound);
    }

    /** Setting "hello" again overwrites its value. */
    static method TestUpdate(t: Tree<string>)
      requires t.Valid() && Hello in t.Contents()
      modifies t, t.Repr
      ensures t.Valid() && t.Contents() == old(t.Contents())[Hello := "eric"]
    {
      var err := t.Set(Hello, Some("eric"));
      assert err == None;
      var v;
      v, err := t.Get(Hello);
      assert v == Some("eric") && err == None;
    }

    /** The empty key is refused by Set and Get alike, and the
        tree is unchanged. */
    static method TestErrors(t: Tree<string>)
      requires t.Valid()
      modifies t, t.Repr
      ensures t.Valid() && t.Contents() == old(t.Contents())
    {
      var err := t.Set([], None);
      assert err == Some(ErrInvalidKey);
      var v;
      v, err := t.Get([]);
      assert v == None && err == Some(ErrInvalidKey);
    }
  }

  /** The key "hello" as bytes. */
  const Hello: seq<byte> := [0x68, 0x65, 0x6c, 0x6c, 0x6f]
}

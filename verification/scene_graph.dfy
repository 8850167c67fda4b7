/**
  Scene nodes and the object list of a scene.

  A node carries a transform (position, orientation as Euler angles, scale),
  an optional name and its owned children. Every node also carries an id:
  the program refers to nodes by address, and the id stands for that
  identity, so a reference to a node is an `Option<nat>` id instead of a
  pointer into the list's storage.
 */
module SceneGraph {
  import opened Wrappers
  import opened Vectors

  datatype Node = Node(
    id: nat,
    name: string,
    position: Vec3,
    orientation: Vec3,
    scale: Vec3,
    children: seq<Node>)

  /** A freshly constructed or imported node: identity transform, no children. */
  function Fresh(id: nat, name: string): Node {
    Node(id, name, Zero, Zero, One, [])
  }

  // Transform operations of a node.

  function Move(n: Node, delta: Vec3): Node {
    n.(position := Add(n.position, delta))
  }

  function Rotate(n: Node, delta: Vec3): Node {
    n.(orientation := Add(n.orientation, delta))
  }

  function SetOrientation(n: Node, o: Vec3): Node {
    n.(orientation := o)
  }

  function Grow(n: Node, factor: Vec3): Node {
    n.(scale := Mul(n.scale, factor))
  }

  function AddChild(n: Node, child: Node): Node {
    n.(children := n.children + [child])
  }

  /** The child at `i`, or None when `i` is past the last child. */
  function GetChild(n: Node, i: nat): Option<Node> {
    if i < |n.children| then Some(n.children[i]) else None
  }

  // The object list: lookups by identity and by name.

  ghost predicate UniqueIds(ns: seq<Node>) {
    forall i, j :: 0 <= i < j < |ns| ==> ns[i].id != ns[j].id
  }

  /** The position of the first node with the given id. */
  function IndexOf(ns: seq<Node>, id: nat): (r: Option<nat>)
    ensures r.Some? ==> r.value < |ns| && ns[r.value].id == id
    ensures r.Some? ==> forall j :: 0 <= j < r.value ==> ns[j].id != id
    ensures r.None? ==> forall j :: 0 <= j < |ns| ==> ns[j].id != id
  {
    if |ns| == 0 then None
    else if ns[0].id == id then Some(0)
    else match IndexOf(ns[1..], id)
      case None => None
      case Some(i) => Some(i + 1)
  }

  /** The node with the given id; defined when the id is in the list. */
  function Get(ns: seq<Node>, id: nat): (n: Node)
    requires IndexOf(ns, id).Some?
    ensures n in ns && n.id == id
  {
    ns[IndexOf(ns, id).value]
  }

  /** The id of the first node with the given name. */
  function FindByName(ns: seq<Node>, name: string): (r: Option<nat>)
    ensures r.Some? ==> exists i :: 0 <= i < |ns| && ns[i].name == name && ns[i].id == r.value
                         && forall j :: 0 <= j < i ==> ns[j].name != name
    ensures r.None? ==> forall j :: 0 <= j < |ns| ==> ns[j].name != name
  {
    if |ns| == 0 then None
    else if ns[0].name == name then Some(ns[0].id)
    else
      var r := FindByName(ns[1..], name);
      if r.Some? then
        ghost var i :| 0 <= i < |ns[1..]| && ns[1..][i].name == name && ns[1..][i].id == r.value
                       && forall j :: 0 <= j < i ==> ns[1..][j].name != name;
        assert ns[i + 1].name == name && ns[i + 1].id == r.value;
        assert forall j :: 0 <= j < i + 1 ==> ns[j].name != name by {
          forall j | 0 <= j < i + 1 ensures ns[j].name != name {
            if j > 0 { assert ns[j] == ns[1..][j - 1]; }
          }
        }
        r
      else r
  }

  /**
    Every node with the given id taken out, the others in their order: the
    erase-remove of the program, which erases the node with a given address.
   */
  function RemoveById(ns: seq<Node>, id: nat): (r: seq<Node>)
    ensures forall n :: n in r <==> n in ns && n.id != id
    ensures |r| <= |ns|
  {
    if |ns| == 0 then []
    else if ns[0].id == id then RemoveById(ns[1..], id)
    else [ns[0]] + RemoveById(ns[1..], id)
  }

  /** Sets position and orientation of the list's nodes with the given id. */
  function Place(ns: seq<Node>, id: nat, position: Vec3, orientation: Vec3): (r: seq<Node>)
    ensures |r| == |ns|
    ensures forall k :: 0 <= k < |r| ==> r[k].id == ns[k].id && r[k].name == ns[k].name
  {
    seq(|ns|, k requires 0 <= k < |ns| =>
      if ns[k].id == id then ns[k].(position := position, orientation := orientation) else ns[k])
  }

  /** Two lists with the same ids in the same order. */
  ghost predicate SameIds(a: seq<Node>, b: seq<Node>) {
    |a| == |b| && forall k :: 0 <= k < |a| ==> a[k].id == b[k].id
  }

  /** Two lists whose nodes agree on id, name and position, slot by slot. */
  ghost predicate SameRoots(a: seq<Node>, b: seq<Node>) {
    |a| == |b| &&
    forall k :: 0 <= k < |a| ==>
      a[k].id == b[k].id && a[k].name == b[k].name && a[k].position == b[k].position
  }

  lemma {:induction false} IndexOfSameIds(a: seq<Node>, b: seq<Node>, id: nat)
    requires SameIds(a, b)
    ensures IndexOf(a, id) == IndexOf(b, id)
  {
    if |a| > 0 && a[0].id != id {
      assert SameIds(a[1..], b[1..]);
      IndexOfSameIds(a[1..], b[1..], id);
    }
  }

  /** With unique ids the first node with an id is the only one. */
  lemma IndexOfUnique(ns: seq<Node>, i: nat)
    requires UniqueIds(ns) && i < |ns|
    ensures IndexOf(ns, ns[i].id) == Some(i)
  {
  }

  lemma {:induction false} RemoveAbsent(ns: seq<Node>, id: nat)
    requires forall k :: 0 <= k < |ns| ==> ns[k].id != id
    ensures RemoveById(ns, id) == ns
  {
    if |ns| > 0 {
      RemoveAbsent(ns[1..], id);
      assert ns == [ns[0]] + ns[1..];
    }
  }

  /**
    With unique ids, removing the id of the node at `i` removes exactly that
    node and keeps the order of all the others.
   */
  lemma {:induction false} RemoveSplices(ns: seq<Node>, id: nat, i: nat)
    requires UniqueIds(ns) && i < |ns| && ns[i].id == id
    ensures RemoveById(ns, id) == ns[..i] + ns[i + 1..]
  {
    UniqueTail(ns);
    if i == 0 {
      RemoveAbsent(ns[1..], id);
    } else {
      assert ns[0].id != id;
      RemoveSplices(ns[1..], id, i - 1);
      SpliceCons(ns, i);
    }
  }

  lemma UniqueTail(ns: seq<Node>)
    requires UniqueIds(ns) && |ns| > 0
    ensures UniqueIds(ns[1..])
  {
    var t := ns[1..];
    forall a, b | 0 <= a < b < |t| ensures t[a].id != t[b].id {
      assert t[a] == ns[a + 1] && t[b] == ns[b + 1];
    }
  }

  lemma SpliceCons<T>(s: seq<T>, i: nat)
    requires 0 < i < |s|
    ensures [s[0]] + (s[1..][..i - 1] + s[1..][i..]) == s[..i] + s[i + 1..]
  {
    assert s[1..][..i - 1] == s[1..i] && s[1..][i..] == s[i + 1..];
    assert [s[0]] + s[1..i] == s[..i];
  }

  lemma UniqueAfterSplice(ns: seq<Node>, i: nat)
    requires UniqueIds(ns) && i < |ns|
    ensures UniqueIds(ns[..i] + ns[i + 1..])
  {
    var r := ns[..i] + ns[i + 1..];
    forall a, b | 0 <= a < b < |r| ensures r[a].id != r[b].id {
      var a' := if a < i then a else a + 1;
      var b' := if b < i then b else b + 1;
      assert r[a] == ns[a'] && r[b] == ns[b'];
    }
  }

  // The deep position update that reaches a node among the children.

  /** Sets the position of every node with the given id in the tree of `n`. */
  function SetPositionDeep(n: Node, id: nat, p: Vec3): Node
    decreases n
  {
    n.(position := if n.id == id then p else n.position,
       children := seq(|n.children|, i requires 0 <= i < |n.children| => SetPositionDeep(n.children[i], id, p)))
  }

  function SetPositionForest(ns: seq<Node>, id: nat, p: Vec3): seq<Node> {
    seq(|ns|, k requires 0 <= k < |ns| => SetPositionDeep(ns[k], id, p))
  }

  /** Every node with the given id in the tree of `n` is at `p`. */
  ghost predicate AllAt(n: Node, id: nat, p: Vec3)
    decreases n
  {
    (n.id == id ==> n.position == p) &&
    forall i :: 0 <= i < |n.children| ==> AllAt(n.children[i], id, p)
  }

  /** `b` is `a` with at most the positions of the nodes with id `id` changed. */
  ghost predicate SameBut(a: Node, b: Node, id: nat)
    decreases a
  {
    a.id == b.id && a.name == b.name && a.orientation == b.orientation && a.scale == b.scale &&
    (a.id != id ==> a.position == b.position) &&
    |a.children| == |b.children| &&
    forall i :: 0 <= i < |a.children| ==> SameBut(a.children[i], b.children[i], id)
  }

  /**
    The deep update puts every node with that id at the new position and
    changes nothing else anywhere in the tree.
   */
  lemma {:induction false} SetPositionDeepEffect(n: Node, id: nat, p: Vec3)
    ensures AllAt(SetPositionDeep(n, id, p), id, p)
    ensures SameBut(n, SetPositionDeep(n, id, p), id)
    decreases n
  {
    var r := SetPositionDeep(n, id, p);
    forall i | 0 <= i < |n.children|
      ensures AllAt(r.children[i], id, p) && SameBut(n.children[i], r.children[i], id)
    {
      SetPositionDeepEffect(n.children[i], id, p);
    }
  }

  /**
    On a list: every node with that id, at any depth, is at the new position,
    the tree shape and all other nodes are unchanged, and when no top-level node
    has that id the list keeps its ids, names and positions.
   */
  lemma SetPositionForestEffect(ns: seq<Node>, id: nat, p: Vec3)
    ensures var r := SetPositionForest(ns, id, p);
            |r| == |ns| &&
            (forall k :: 0 <= k < |ns| ==> AllAt(r[k], id, p) && SameBut(ns[k], r[k], id)) &&
            (IndexOf(ns, id).None? ==> SameRoots(ns, r))
  {
    var r := SetPositionForest(ns, id, p);
    forall k | 0 <= k < |ns| ensures AllAt(r[k], id, p) && SameBut(ns[k], r[k], id) {
      SetPositionDeepEffect(ns[k], id, p);
    }
  }
}

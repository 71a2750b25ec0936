/**
 Mesh enumeration over a scene graph (the `Object3DUtils` class of index.js).

 A scene node carries a role tag (`Plain` or `Mesh`), an opaque payload `T`
 standing for the rest of the object, and its children in insertion order.
 The scene graph's own `traverse` visits a node and then each child's subtree
 in order (pre-order); `Traverse` below is that visit order.
 */
module Object3DUtils {

  datatype Role = Plain | Mesh

  datatype Node<T> = Node(data: T, role: Role, children: seq<Node<T>>)

  /** Any value handed to the utilities: `undefined`, some value that is not
      a scene node, or a scene node. */
  datatype Value<T> = Undefined | NotObject | Object3D(node: Node<T>)

  predicate IsObject<T>(o: Value<T>) {
    if o.Undefined? then false else o.Object3D?
  }

  /** A value is a mesh exactly when it is a scene node tagged as a mesh;
      in particular every mesh is a scene node. */
  function IsMesh<T>(o: Value<T>): (b: bool)
    ensures b ==> IsObject(o)
    ensures b <==> IsObject(o) && o.node.role == Mesh
  {
    if o.Undefined? then false else o.Object3D? && o.node.role == Mesh
  }

  /** The nodes of the subtree rooted at `n`, in the scene graph's pre-order
      visit order. */
  function Traverse<T>(n: Node<T>): seq<Node<T>>
    decreases n, 1
  {
    [n] + TraverseChildren(n, 0)
  }

  /** The visit order of the subtrees of `n.children[i..]`. */
  function TraverseChildren<T>(n: Node<T>, i: nat): seq<Node<T>>
    requires i <= |n.children|
    decreases n, 0, |n.children| - i
  {
    if i == |n.children| then []
    else Traverse(n.children[i]) + TraverseChildren(n, i + 1)
  }

  /** The callback of `getAllMeshes`: keeps the visited nodes that are
      meshes, in visit order. */
  function KeepMeshes<T>(visited: seq<Node<T>>): seq<Node<T>> {
    if visited == [] then []
    else (if IsMesh(Object3D(visited[0])) then [visited[0]] else []) + KeepMeshes(visited[1..])
  }

  function GetAllMeshes<T>(o: Value<T>): (r: seq<Node<T>>)
    ensures !IsObject(o) ==> r == []
    ensures IsMesh(o) ==> |r| > 0 && r[0] == o.node
  {
    if !IsObject(o) then []
    else KeepMeshes(Traverse(o.node))
  }

  // ---------------------------------------------------------------------
  // Reference definitions

  /** `x` is a node of the subtree rooted at `n` (the root included). */
  ghost predicate InSubtree<T>(x: Node<T>, n: Node<T>)
    decreases n
  {
    x == n || exists i :: 0 <= i < |n.children| && InSubtree(x, n.children[i])
  }

  /** The number of mesh-tagged nodes of the subtree rooted at `n`. */
  function MeshCount<T>(n: Node<T>): nat
    decreases n, 1
  {
    (if n.role == Mesh then 1 else 0) + ChildrenMeshCount(n, 0)
  }

  function ChildrenMeshCount<T>(n: Node<T>, i: nat): nat
    requires i <= |n.children|
    decreases n, 0, |n.children| - i
  {
    if i == |n.children| then 0
    else MeshCount(n.children[i]) + ChildrenMeshCount(n, i + 1)
  }

  // ---------------------------------------------------------------------
  // Properties

  lemma {:induction false} KeepMeshesMembership<T>(visited: seq<Node<T>>, x: Node<T>)
    ensures x in KeepMeshes(visited) <==> x in visited && x.role == Mesh
    decreases |visited|
  {
    if visited != [] {
      KeepMeshesMembership(visited[1..], x);
      assert visited == [visited[0]] + visited[1..];
    }
  }

  lemma {:induction false} KeepMeshesAppend<T>(a: seq<Node<T>>, b: seq<Node<T>>)
    ensures KeepMeshes(a + b) == KeepMeshes(a) + KeepMeshes(b)
    decreases |a|
  {
    if a == [] {
      assert a + b == b;
    } else {
      assert (a + b)[1..] == a[1..] + b;
      KeepMeshesAppend(a[1..], b);
    }
  }

  /** The visit order reaches exactly the nodes of the subtree. */
  lemma {:induction false} TraverseMembership<T>(n: Node<T>, x: Node<T>)
    ensures x in Traverse(n) <==> InSubtree(x, n)
    decreases n, 1
  {
    TraverseChildrenMembership(n, 0, x);
  }

  lemma {:induction false} TraverseChildrenMembership<T>(n: Node<T>, i: nat, x: Node<T>)
    requires i <= |n.children|
    ensures x in TraverseChildren(n, i) <==>
              exists j :: i <= j < |n.children| && InSubtree(x, n.children[j])
    decreases n, 0, |n.children| - i
  {
    if i < |n.children| {
      TraverseMembership(n.children[i], x);
      TraverseChildrenMembership(n, i + 1, x);
      if InSubtree(x, n.children[i]) {
        assert exists j :: i <= j < |n.children| && InSubtree(x, n.children[j]);
      }
      if exists j :: i <= j < |n.children| && InSubtree(x, n.children[j]) {
        var j :| i <= j < |n.children| && InSubtree(x, n.children[j]);
        if j != i {
          assert exists j' :: i + 1 <= j' < |n.children| && InSubtree(x, n.children[j']);
        }
      }
    }
  }

  /** Soundness and completeness: `getAllMeshes` of a scene node returns a
      node if and only if it is a mesh of the node's subtree (the node itself
      included). */
  lemma GetAllMeshesExactlyMeshes<T>(n: Node<T>, x: Node<T>)
    ensures x in GetAllMeshes(Object3D(n)) <==> InSubtree(x, n) && x.role == Mesh
  {
    KeepMeshesMembership(Traverse(n), x);
    TraverseMembership(n, x);
  }

  /** `getAllMeshes` lists each mesh of the subtree once per visit: its
      length is the number of mesh-tagged nodes. */
  lemma {:induction false} GetAllMeshesCount<T>(n: Node<T>)
    ensures |GetAllMeshes(Object3D(n))| == MeshCount(n)
    decreases n, 1
  {
    KeepMeshesAppend([n], TraverseChildren(n, 0));
    ChildrenCount(n, 0);
  }

  lemma {:induction false} ChildrenCount<T>(n: Node<T>, i: nat)
    requires i <= |n.children|
    ensures |KeepMeshes(TraverseChildren(n, i))| == ChildrenMeshCount(n, i)
    decreases n, 0, |n.children| - i
  {
    if i < |n.children| {
      KeepMeshesAppend(Traverse(n.children[i]), TraverseChildren(n, i + 1));
      GetAllMeshesCount(n.children[i]);
      ChildrenCount(n, i + 1);
    }
  }
}

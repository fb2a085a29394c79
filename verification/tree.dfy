/** `getImageNodes`: the walk over a Figma node tree that collects the icons.
    For a node it first records, for each INSTANCE child in order,
    id -> normalizeName(name), then for each FRAME child in order merges the
    child's own result with `Object.assign`, so the later write wins. Children
    of any other type are skipped, and INSTANCE children are not descended into. */
module Tree {
  import opened Names
  import opened Records
  import opened Wrappers

  datatype NodeType = Frame | Instance | OtherType

  datatype Node = Node(id: string, name: string, kind: NodeType, children: seq<Node>)

  /** The first loop: every INSTANCE child among `children`, in order, writes
      its id -> normalised name into `r`. */
  function PutInstances(r: Rec, children: seq<Node>): Rec
  {
    if children == [] then r
    else
      var before := PutInstances(r, children[..|children| - 1]);
      var image := children[|children| - 1];
      if image.kind == Instance then Put(before, image.id, NormalizeName(image.name)) else before
  }

  /** The result of `getImageNodes(row)`. */
  function ImageNodes(row: Node): Rec
    decreases row, 1
  {
    MergeFrames(PutInstances(Empty, row.children), row.children)
  }

  /** The second loop: `Object.assign(nodes, getImageNodes(frame))` for every
      FRAME child among `children`, in order. */
  function MergeFrames(r: Rec, children: seq<Node>): Rec
    decreases children, 0
  {
    if children == [] then r
    else
      var before := MergeFrames(r, children[..|children| - 1]);
      var frame := children[|children| - 1];
      if frame.kind == Frame then Assign(before, ImageNodes(frame)) else before
  }

  /** `getImageNodes` as the source writes it: two loops over the children
      that update the local record `nodes`, the second one recursing into
      every FRAME child. */
  method GetImageNodes(row: Node) returns (nodes: Rec)
    ensures nodes == ImageNodes(row)
    decreases row
  {
    var children := row.children;
    nodes := Empty;
    var i := 0;
    while i < |children|
      invariant 0 <= i <= |children|
      invariant nodes == PutInstances(Empty, children[..i])
    {
      var image := children[i];
      assert children[..i + 1][..i] == children[..i];
      if image.kind == Instance {
        nodes := Put(nodes, image.id, NormalizeName(image.name));
      }
      i := i + 1;
    }
    assert children[..i] == children;
    var instances := nodes;
    i := 0;
    while i < |children|
      invariant 0 <= i <= |children|
      invariant nodes == MergeFrames(instances, children[..i])
    {
      var frame := children[i];
      assert children[..i + 1][..i] == children[..i];
      if frame.kind == Frame {
        var sub := GetImageNodes(frame);
        nodes := Assign(nodes, sub);
      }
      i := i + 1;
    }
    assert children[..i] == children;
  }

  /** Reference definition: the INSTANCE nodes reachable from `row` through
      chains of FRAME nodes, in the order their entries are written: a node's
      own INSTANCE children first, then those under each FRAME child. */
  function ReachableInstances(row: Node): seq<Node>
    decreases row, 1
  {
    InstancesAmong(row.children) + InstancesUnderFrames(row.children)
  }

  function InstancesAmong(children: seq<Node>): seq<Node> {
    if children == [] then []
    else
      var last := children[|children| - 1];
      InstancesAmong(children[..|children| - 1]) + (if last.kind == Instance then [last] else [])
  }

  function InstancesUnderFrames(children: seq<Node>): seq<Node>
    decreases children, 0
  {
    if children == [] then []
    else
      var last := children[|children| - 1];
      InstancesUnderFrames(children[..|children| - 1])
        + (if last.kind == Frame then ReachableInstances(last) else [])
  }

  /** Reference definition of "the later write wins": the normalised name
      written last for `id` when each of `nodes` writes id -> normalised name
      in order, or None when no node has that id. */
  function LastWrite(nodes: seq<Node>, id: string): Option<string> {
    if nodes == [] then None
    else if nodes[|nodes| - 1].id == id then Some(NormalizeName(nodes[|nodes| - 1].name))
    else LastWrite(nodes[..|nodes| - 1], id)
  }

  /** The walk builds a well-formed record: every id listed once. */
  lemma {:induction false} ImageNodesValid(row: Node)
    ensures Valid(ImageNodes(row))
    decreases row, 1
  {
    PutInstancesValid(Empty, row.children);
    MergeFramesValid(PutInstances(Empty, row.children), row.children);
  }

  lemma {:induction false} PutInstancesValid(r: Rec, children: seq<Node>)
    requires Valid(r)
    ensures Valid(PutInstances(r, children))
    decreases |children|
  {
    if children != [] {
      var last := children[|children| - 1];
      PutInstancesValid(r, children[..|children| - 1]);
      if last.kind == Instance {
        PutValid(PutInstances(r, children[..|children| - 1]), last.id, NormalizeName(last.name));
      }
    }
  }

  lemma {:induction false} MergeFramesValid(r: Rec, children: seq<Node>)
    requires Valid(r)
    ensures Valid(MergeFrames(r, children))
    decreases children, 0
  {
    if children != [] {
      var last := children[|children| - 1];
      MergeFramesValid(r, children[..|children| - 1]);
      if last.kind == Frame {
        AssignValid(MergeFrames(r, children[..|children| - 1]), ImageNodes(last));
      }
    }
  }

  lemma {:induction false} LastWriteAppend(a: seq<Node>, b: seq<Node>, id: string)
    ensures LastWrite(a + b, id) == Later(LastWrite(a, id), LastWrite(b, id))
    decreases |b|
  {
    if b == [] {
      assert a + b == a;
    } else {
      assert (a + b)[..|a + b| - 1] == a + b[..|b| - 1];
      LastWriteAppend(a, b[..|b| - 1], id);
    }
  }

  lemma {:induction false} PutInstancesWrites(r: Rec, children: seq<Node>, id: string)
    ensures Get(PutInstances(r, children), id) == Later(Get(r, id), LastWrite(InstancesAmong(children), id))
    decreases |children|
  {
    if children != [] {
      var init := children[..|children| - 1];
      var last := children[|children| - 1];
      PutInstancesWrites(r, init, id);
      if last.kind == Instance {
        assert InstancesAmong(children) == InstancesAmong(init) + [last];
        assert (InstancesAmong(init) + [last])[..|InstancesAmong(init)|] == InstancesAmong(init);
      } else {
        assert InstancesAmong(children) == InstancesAmong(init);
      }
    }
  }

  lemma {:induction false} ImageNodesWrites(row: Node, id: string)
    ensures Get(ImageNodes(row), id) == LastWrite(ReachableInstances(row), id)
    decreases row, 1
  {
    PutInstancesWrites(Empty, row.children, id);
    MergeFramesWrites(PutInstances(Empty, row.children), row.children, id);
    LastWriteAppend(InstancesAmong(row.children), InstancesUnderFrames(row.children), id);
  }

  lemma {:induction false} MergeFramesWrites(r: Rec, children: seq<Node>, id: string)
    ensures Get(MergeFrames(r, children), id) == Later(Get(r, id), LastWrite(InstancesUnderFrames(children), id))
    decreases children, 0
  {
    if children != [] {
      var init := children[..|children| - 1];
      var last := children[|children| - 1];
      MergeFramesWrites(r, init, id);
      if last.kind == Frame {
        ImageNodesValid(last);
        AssignGet(MergeFrames(r, init), ImageNodes(last), id);
        ImageNodesWrites(last, id);
        LastWriteAppend(InstancesUnderFrames(init), ReachableInstances(last), id);
      } else {
        assert InstancesUnderFrames(children) == InstancesUnderFrames(init);
      }
    }
  }

  /** LastWrite finds no value exactly when no node has the id. */
  lemma {:induction false} LastWriteAbsent(nodes: seq<Node>, id: string)
    ensures LastWrite(nodes, id).None? <==> forall i | 0 <= i < |nodes| :: nodes[i].id != id
    decreases |nodes|
  {
    if nodes != [] && nodes[|nodes| - 1].id != id {
      var init := nodes[..|nodes| - 1];
      LastWriteAbsent(init, id);
      assert forall i | 0 <= i < |init| :: nodes[i].id == init[i].id;
    }
  }

  /** A value LastWrite finds is the normalised name of the last node with the id. */
  lemma {:induction false} LastWriteIsLast(nodes: seq<Node>, id: string) returns (i: nat)
    requires LastWrite(nodes, id).Some?
    ensures i < |nodes| && nodes[i].id == id
    ensures LastWrite(nodes, id) == Some(NormalizeName(nodes[i].name))
    ensures forall j | i < j < |nodes| :: nodes[j].id != id
    decreases |nodes|
  {
    if nodes[|nodes| - 1].id == id {
      i := |nodes| - 1;
    } else {
      var init := nodes[..|nodes| - 1];
      i := LastWriteIsLast(init, id);
      assert nodes[i] == init[i];
    }
  }

  /** What `getImageNodes` returns: every id is listed once, an id is present
      exactly when some INSTANCE node reachable from `row` through FRAME nodes
      has it, and its value is the normalised name of the last such node (the
      later write wins). */
  lemma ImageNodesSpec(row: Node, id: string)
    ensures var r := ImageNodes(row); var found := ReachableInstances(row);
      && (forall i, j | 0 <= i < j < |r.keys| :: r.keys[i] != r.keys[j])
      && (id in r.keys <==> exists i :: 0 <= i < |found| && found[i].id == id)
      && (id in r.keys ==>
            exists i :: 0 <= i < |found| && found[i].id == id
              && Get(r, id) == Some(NormalizeName(found[i].name))
              && (forall j | i < j < |found| :: found[j].id != id))
  {
    var found := ReachableInstances(row);
    ImageNodesValid(row);
    ImageNodesWrites(row, id);
    LastWriteAbsent(found, id);
    if id in ImageNodes(row).keys {
      var i := LastWriteIsLast(found, id);
    }
  }

  /** Every node the walk records is an INSTANCE node. */
  lemma {:induction false} ReachableAreInstances(row: Node)
    ensures forall n <- ReachableInstances(row) :: n.kind == Instance
    decreases row, 1
  {
    InstancesAmongAreInstances(row.children);
    FramesHoldInstances(row.children);
  }

  lemma {:induction false} InstancesAmongAreInstances(children: seq<Node>)
    ensures forall n <- InstancesAmong(children) :: n.kind == Instance
    decreases |children|
  {
    if children != [] {
      InstancesAmongAreInstances(children[..|children| - 1]);
    }
  }

  lemma {:induction false} FramesHoldInstances(children: seq<Node>)
    ensures forall n <- InstancesUnderFrames(children) :: n.kind == Instance
    decreases children, 0
  {
    if children != [] {
      var last := children[|children| - 1];
      FramesHoldInstances(children[..|children| - 1]);
      if last.kind == Frame {
        ReachableAreInstances(last);
      }
    }
  }

  /** Two children that the walk cannot tell apart: same id, name and type,
      and the same children when they are FRAMEs (the only ones it enters). */
  predicate SameToTheWalk(a: Node, b: Node) {
    a.id == b.id && a.name == b.name && a.kind == b.kind
    && (a.kind == Frame ==> a.children == b.children)
  }

  lemma {:induction false} PutInstancesIgnoresSubtrees(r: Rec, cs: seq<Node>, ds: seq<Node>)
    requires |cs| == |ds| && forall i | 0 <= i < |cs| :: SameToTheWalk(cs[i], ds[i])
    ensures PutInstances(r, cs) == PutInstances(r, ds)
    decreases |cs|
  {
    if cs != [] {
      PutInstancesIgnoresSubtrees(r, cs[..|cs| - 1], ds[..|ds| - 1]);
    }
  }

  lemma {:induction false} MergeFramesIgnoresSubtrees(r: Rec, cs: seq<Node>, ds: seq<Node>)
    requires |cs| == |ds| && forall i | 0 <= i < |cs| :: SameToTheWalk(cs[i], ds[i])
    ensures MergeFrames(r, cs) == MergeFrames(r, ds)
    decreases |cs|
  {
    if cs != [] {
      MergeFramesIgnoresSubtrees(r, cs[..|cs| - 1], ds[..|ds| - 1]);
    }
  }

  /** INSTANCE and other non-FRAME children are never descended into: what
      lies below them does not change the result. */
  lemma NonFramesNotDescended(row: Node, children: seq<Node>)
    requires |children| == |row.children|
    requires forall i | 0 <= i < |children| :: SameToTheWalk(row.children[i], children[i])
    ensures ImageNodes(row.(children := children)) == ImageNodes(row)
  {
    PutInstancesIgnoresSubtrees(Empty, row.children, children);
    MergeFramesIgnoresSubtrees(PutInstances(Empty, row.children), row.children, children);
  }
}

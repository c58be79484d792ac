/** Heap-level model of tree/tree.go: AssignmentNode objects linked by
    `Parent` back-pointers and ordered `children` slices, the builder that
    grows them in place, and the pre-order writer over an encoder stream.
    Each node carries a ghost abstract value (`Model`, a TreeSpec.Tree) and
    a ghost footprint (`Repr`); `Valid()` ties both to the real fields. */
module AssignmentTree {
  import opened TreeSpec

  class AssignmentNode {
    var Parent: AssignmentNode?
    var Name: string
    var URL: string
    var children: seq<AssignmentNode>

    ghost var Model: Tree
    ghost var Repr: set<AssignmentNode>

    /** The subtree below this node is a tree: each child's footprint lies
        inside this one, excludes this node and is disjoint from its
        siblings'; each child points back here; the models agree. */
    ghost predicate Valid()
      reads this, Repr
      decreases Repr
    {
      this in Repr &&
      Model.name == Name && Model.url == URL && |Model.children| == |children| &&
      (forall i :: 0 <= i < |children| ==>
         children[i] in Repr && children[i].Repr <= Repr && this !in children[i].Repr &&
         children[i].Parent == this && children[i].Model == Model.children[i] &&
         children[i].Valid()) &&
      (forall i, j :: 0 <= i < j < |children| ==> children[i].Repr !! children[j].Repr)
    }

    /** The composite literal `&AssignmentNode{Name, URL, Parent}`. */
    constructor (parent: AssignmentNode?, name: string, url: string)
      ensures Parent == parent && Name == name && URL == url && children == []
      ensures Valid() && Model == Tree(name, url, []) && Repr == {this}
    {
      Parent := parent;
      Name := name;
      URL := url;
      children := [];
      Model := Tree(name, url, []);
      Repr := {this};
    }

    /** Attach `c` as the last child: `c.Parent` is set and the earlier
        children stay as they were. `c` must not be part of this subtree. */
    method AppendChild(c: AssignmentNode)
      requires Valid() && c.Valid() && Repr !! c.Repr
      modifies this, c
      ensures c.Parent == this && children == old(children) + [c]
      ensures Parent == old(Parent) && Name == old(Name) && URL == old(URL)
      ensures c.Name == old(c.Name) && c.URL == old(c.URL) && c.children == old(c.children)
      ensures Valid() && Repr == old(Repr) + c.Repr
      ensures Model == Tree(old(Model).name, old(Model).url, old(Model).children + [c.Model])
      ensures c.Model == old(c.Model) && c.Repr == old(c.Repr)
    {
      c.Parent := this;
      children := children + [c];
      Repr := Repr + c.Repr;
      Model := Tree(Model.name, Model.url, Model.children + [c.Model]);
    }

    /** `Valid()` except that child `i`'s subtree has changed below it: the
        child is valid on its own and its footprint avoids this node and
        the other children's footprints, which still lie inside `Repr`. */
    ghost predicate ValidBut(i: nat)
      reads this, Repr, if i < |children| then {children[i]} + children[i].Repr else {}
    {
      this in Repr && i < |children| &&
      Model.name == Name && Model.url == URL && |Model.children| == |children| &&
      children[i] in Repr && this !in children[i].Repr && children[i].Parent == this && children[i].Valid() &&
      (forall j :: 0 <= j < |children| && j != i ==>
         children[j] in Repr && children[j].Repr <= Repr && this !in children[j].Repr &&
         children[j].Parent == this && children[j].Model == Model.children[j] &&
         children[j].Valid() && children[j].Repr !! children[i].Repr) &&
      (forall j, k :: 0 <= j < k < |children| && j != i && k != i ==> children[j].Repr !! children[k].Repr)
    }

    /** Take up child `i`'s current subtree into this node's model and footprint. */
    ghost method Adopt(i: nat)
      requires ValidBut(i)
      modifies this
      ensures Valid() && children == old(children) && Parent == old(Parent)
      ensures Repr == old(Repr) + children[i].Repr
      ensures Model == Tree(old(Model).name, old(Model).url, old(Model).children[i := children[i].Model])
    {
      Repr := Repr + children[i].Repr;
      Model := Tree(Model.name, Model.url, Model.children[i := children[i].Model]);
    }
  }

  /** A fresh node with the given parent, name and URL and no children; the
      node is not yet in `parent`'s children. */
  method BuildAssignmentNode(parent: AssignmentNode?, name: string, url: string) returns (node: AssignmentNode)
    ensures fresh(node)
    ensures node.Parent == parent && node.Name == name && node.URL == url && node.children == []
    ensures node.Valid() && node.Model == Tree(name, url, []) && node.Repr == {node}
  {
    node := new AssignmentNode(parent, name, url);
  }

  /** A fresh root: no parent, no children. */
  method BuildRootAssignmentNode(name: string, url: string) returns (node: AssignmentNode)
    ensures fresh(node)
    ensures node.Parent == null && node.Name == name && node.URL == url && node.children == []
    ensures node.Valid() && node.Model == Tree(name, url, []) && node.Repr == {node}
  {
    node := BuildAssignmentNode(null, name, url);
  }

  /** Fetch the page at `url`, append one child per listed pair, and when
      `depth > 0` expand every child of `rootNode` with `depth - 1`. The
      subtree is changed in place exactly as TreeSpec.Build describes, on
      failure too; `calls` counts the page fetches. On success the same
      `rootNode` is returned; on any error, null. */
  method PullAssignmentsFromThemisAndBuildTree(fetch: Fetch, url: string, rootNode: AssignmentNode, depth: int)
    returns (result: AssignmentNode?, err: Option<PullError>, ghost calls: nat)
    requires rootNode.Valid()
    modifies rootNode.Repr
    ensures rootNode.Valid()
    ensures old(rootNode.Repr) <= rootNode.Repr && fresh(rootNode.Repr - old(rootNode.Repr))
    ensures rootNode.Parent == old(rootNode.Parent)
    ensures var b := Build(fetch, url, old(rootNode.Model), depth);
            rootNode.Model == b.tree && err == b.err && calls == b.calls
    ensures old(rootNode.children) <= rootNode.children
    ensures fetch(url).Err? ==> rootNode.children == old(rootNode.children)
    ensures forall j :: |old(rootNode.children)| <= j < |rootNode.children| ==> fresh(rootNode.children[j])
    ensures forall o :: o in old(rootNode.Repr) ==>
              old(o.children) <= o.children && (o != rootNode ==> o.Parent == old(o.Parent))
    ensures err.None? ==> result == rootNode
    ensures err.Some? ==> result == null
    decreases Fuel(depth), 0
  {
    calls := 1;
    var page := fetch(url);
    if page.Err? {
      return null, Some(GettingAssignments(page.error)), calls;
    }
    AppendAssignments(rootNode, page.value);

    if depth > 0 {
      var e, n := ExpandChildren(fetch, rootNode, depth - 1);
      calls := calls + n;
      if e.Some? {
        return null, Some(BuildingTree(e.value)), calls;
      }
    }
    return rootNode, None, calls;
  }

  /** The first loop of the builder: one new child per listed pair, in
      order, each pointing back at `rootNode`. */
  method AppendAssignments(rootNode: AssignmentNode, assignments: seq<Listing>)
    requires rootNode.Valid()
    modifies rootNode
    ensures rootNode.Valid() && old(rootNode.children) <= rootNode.children
    ensures |rootNode.children| == |old(rootNode.children)| + |assignments|
    ensures forall j :: |old(rootNode.children)| <= j < |rootNode.children| ==> fresh(rootNode.children[j])
    ensures forall o :: o in old(rootNode.Repr) ==>
              old(o.children) <= o.children && (o != rootNode ==> o.Parent == old(o.Parent))
    ensures old(rootNode.Repr) <= rootNode.Repr && fresh(rootNode.Repr - old(rootNode.Repr))
    ensures rootNode.Parent == old(rootNode.Parent)
    ensures rootNode.Model == Tree(old(rootNode.Model).name, old(rootNode.Model).url,
                                   old(rootNode.Model).children + Leaves(assignments))
  {
    ghost var start := rootNode.Model;
    for k := 0 to |assignments|
      invariant rootNode.Valid() && old(rootNode.children) <= rootNode.children
      invariant |rootNode.children| == |old(rootNode.children)| + k
      invariant forall j :: |old(rootNode.children)| <= j < |rootNode.children| ==> fresh(rootNode.children[j])
      invariant forall o :: o in old(rootNode.Repr) ==>
                  old(o.children) <= o.children && (o != rootNode ==> o.Parent == old(o.Parent))
      invariant old(rootNode.Repr) <= rootNode.Repr && fresh(rootNode.Repr - old(rootNode.Repr))
      invariant rootNode.Parent == old(rootNode.Parent)
      invariant rootNode.Model == Tree(start.name, start.url, start.children + Leaves(assignments[..k]))
    {
      var node := BuildAssignmentNode(rootNode, assignments[k].name, assignments[k].url);
      rootNode.AppendChild(node);
      assert Leaves(assignments[..k + 1]) == Leaves(assignments[..k]) + [node.Model];
    }
    assert assignments[..|assignments|] == assignments;
  }

  /** The expansion loop: `for _, child := range rootNode.children`, each
      child rebuilt with `depth` in order, returning at the first error. */
  method ExpandChildren(fetch: Fetch, rootNode: AssignmentNode, depth: int)
    returns (err: Option<PullError>, ghost calls: nat)
    requires rootNode.Valid()
    modifies rootNode.Repr
    ensures rootNode.Valid() && rootNode.children == old(rootNode.children)
    ensures old(rootNode.Repr) <= rootNode.Repr && fresh(rootNode.Repr - old(rootNode.Repr))
    ensures forall o :: o in old(rootNode.Repr) ==>
              old(o.children) <= o.children && (o != rootNode ==> o.Parent == old(o.Parent))
    ensures rootNode.Parent == old(rootNode.Parent)
    ensures var r := BuildChildren(fetch, old(rootNode.Model).children, |old(rootNode.Model).children|, depth);
            rootNode.Model == Tree(old(rootNode.Model).name, old(rootNode.Model).url, r.trees) &&
            err == r.err && calls == r.calls
    decreases Fuel(depth), 3
  {
    ghost var start := rootNode.Model;
    ghost var grown := start.children;
    var kids := rootNode.children;
    calls := 0;
    for i := 0 to |kids|
      invariant rootNode.Valid() && rootNode.children == kids
      invariant old(rootNode.Repr) <= rootNode.Repr
      invariant forall o :: o in rootNode.Repr ==> o in old(rootNode.Repr) || fresh(o)
      invariant forall o :: o in old(rootNode.Repr) ==>
                  old(o.children) <= o.children && (o != rootNode ==> o.Parent == old(o.Parent))
      invariant rootNode.Parent == old(rootNode.Parent)
      invariant rootNode.Model.name == start.name && rootNode.Model.url == start.url
      invariant var f := BuildChildren(fetch, grown, i, depth);
                f.err.None? && calls == f.calls && rootNode.Model.children == f.trees + grown[i..]
    {
      var e, n := ExpandChild(fetch, rootNode, i, depth, grown, calls);
      calls := calls + n;
      if e.Some? {
        return e, calls;
      }
    }
    assert grown[|kids|..] == [];
    return None, calls;
  }

  /** One iteration of the expansion loop, stated against the list being
      expanded: `grown` is that list and `done` the fetches made so far. */
  method ExpandChild(fetch: Fetch, parent: AssignmentNode, i: nat, depth: int, ghost grown: seq<Tree>, ghost done: nat)
    returns (err: Option<PullError>, ghost calls: nat)
    requires parent.Valid() && i < |parent.children| == |grown|
    requires var f := BuildChildren(fetch, grown, i, depth);
             f.err.None? && done == f.calls && parent.Model.children == f.trees + grown[i..]
    modifies parent.Repr
    ensures parent.Valid() && parent.children == old(parent.children)
    ensures old(parent.Repr) <= parent.Repr
    ensures forall o :: o in parent.Repr ==> o in old(parent.Repr) || fresh(o)
    ensures forall o :: o in old(parent.Repr) ==>
              old(o.children) <= o.children && (o != parent ==> o.Parent == old(o.Parent))
    ensures parent.Parent == old(parent.Parent)
    ensures parent.Model.name == old(parent.Model).name && parent.Model.url == old(parent.Model).url
    ensures err.None? ==>
              var g := BuildChildren(fetch, grown, i + 1, depth);
              g.err.None? && done + calls == g.calls && parent.Model.children == g.trees + grown[i + 1..]
    ensures err.Some? ==>
              BuildChildren(fetch, grown, |grown|, depth) == BuiltList(parent.Model.children, err, done + calls)
    decreases Fuel(depth), 2
  {
    assert parent.Model.children[i] == grown[i];
    err, calls := RebuildChild(fetch, parent, i, depth);
    if err.Some? {
      BuildChildrenStop(fetch, grown, i, depth);
    } else {
      BuildChildrenTurn(fetch, grown, i, depth);
    }
  }

  /** Rebuild child `i` of `parent` with `depth` and record the grown
      subtree in `parent`'s ghost state. */
  method RebuildChild(fetch: Fetch, parent: AssignmentNode, i: nat, depth: int)
    returns (err: Option<PullError>, ghost calls: nat)
    requires parent.Valid() && i < |parent.children|
    modifies parent.Repr
    ensures parent.Valid() && parent.children == old(parent.children)
    ensures old(parent.Repr) <= parent.Repr
    ensures forall o :: o in parent.Repr ==> o in old(parent.Repr) || fresh(o)
    ensures forall o :: o in old(parent.Repr) ==>
              old(o.children) <= o.children && (o != parent ==> o.Parent == old(o.Parent))
    ensures parent.Parent == old(parent.Parent)
    ensures var child := old(parent.Model.children[i]);
            var b := Build(fetch, child.url, child, depth);
            parent.Model == Tree(old(parent.Model).name, old(parent.Model).url,
                                 old(parent.Model).children[i := b.tree]) &&
            err == b.err && calls == b.calls
    decreases Fuel(depth), 1
  {
    var child := parent.children[i];
    ghost var siblings := parent.children;
    ghost var childRepr := child.Repr;
    assert forall j :: 0 <= j < |siblings| && j != i ==> siblings[j].Repr !! childRepr;
    var _, e, n := PullAssignmentsFromThemisAndBuildTree(fetch, child.URL, child, depth);
    err, calls := e, n;
    assert forall j :: 0 <= j < |siblings| && j != i ==> siblings[j].Valid();
    parent.Adopt(i);
  }
  /** The JSON encoder writing into a stream: `written` is what the stream
      holds, `encoding` the abstract outcome of serialising one node. */
  class Encoder {
    var written: seq<Record>
    const encoding: Encoding

    constructor (encoding: Encoding)
      ensures written == [] && this.encoding == encoding
    {
      written := [];
      this.encoding := encoding;
    }

    /** `encoder.Encode(node)`: append the node's record, or report why
        it could not be serialised and write nothing. */
    method Encode(node: AssignmentNode) returns (err: Option<string>)
      modifies this
      ensures err == encoding(Record(node.Name, node.URL))
      ensures written == if err.None? then old(written) + [Record(node.Name, node.URL)] else old(written)
    {
      err := encoding(Record(node.Name, node.URL));
      if err.None? {
        written := written + [Record(node.Name, node.URL)];
      }
    }
  }

  /** Write `node` and its descendants down to `depth` more levels, in
      pre-order, stopping at the first node the encoder refuses. */
  method EncodeAssignmentTree(encoder: Encoder, node: AssignmentNode, depth: int) returns (err: Option<EncodeError>)
    requires node.Valid()
    modifies encoder
    ensures var e := Emit(encoder.encoding, node.Model, depth);
            encoder.written == old(encoder.written) + e.records && err == e.err
    decreases node.Model, 2
  {
    if depth < 0 {
      return None;
    }
    var e := encoder.Encode(node);
    if e.Some? {
      return Some(EncodingNode(node.Name, e.value));
    }
    err := EncodeChildren(encoder, node, depth - 1);
  }

  /** The writer loop `for _, child := range node.children`: each child
      written with `depth` in order, returning at the first error. */
  method EncodeChildren(encoder: Encoder, node: AssignmentNode, depth: int) returns (err: Option<EncodeError>)
    requires node.Valid()
    modifies encoder
    ensures var e := EmitAll(encoder.encoding, node.Model.children, |node.Model.children|, depth);
            encoder.written == old(encoder.written) + e.records && err == e.err
    decreases node.Model, 1
  {
    ghost var kids := node.Model.children;
    var children := node.children;
    for i := 0 to |children|
      invariant var f := EmitAll(encoder.encoding, kids, i, depth);
                f.err.None? && encoder.written == old(encoder.written) + f.records
    {
      var e := EncodeChild(encoder, node, i, depth, old(encoder.written));
      if e.Some? {
        return e;
      }
    }
    return None;
  }

  /** One turn of the writer loop: write child `i` after the records `before`
      and the children ahead of it. */
  method EncodeChild(encoder: Encoder, node: AssignmentNode, i: nat, depth: int, ghost before: seq<Record>)
    returns (err: Option<EncodeError>)
    requires node.Valid() && i < |node.children|
    requires var f := EmitAll(encoder.encoding, node.Model.children, i, depth);
             f.err.None? && encoder.written == before + f.records
    modifies encoder
    ensures err.None? ==>
              var g := EmitAll(encoder.encoding, node.Model.children, i + 1, depth);
              g.err.None? && encoder.written == before + g.records
    ensures err.Some? ==>
              var e := EmitAll(encoder.encoding, node.Model.children, |node.Model.children|, depth);
              encoder.written == before + e.records && err == e.err
    decreases node.Model, 0
  {
    assert node.children[i].Valid() && node.children[i].Model == node.Model.children[i];
    err := EncodeAssignmentTree(encoder, node.children[i], depth);
    EmitAllTurn(encoder.encoding, node.Model.children, i, depth);
  }

  datatype SaveError = CreatingFile(reason: string) | EncodingTree(cause: EncodeError)

  /** `SaveAssignmentTreeToJSON`: `create` is the outcome of creating the
      output file (None: created). Returns what the file holds afterwards
      (None when it was never created) and the error. */
  method SaveAssignmentTreeToJSON(rootNode: AssignmentNode, depth: int, create: Option<string>, encoding: Encoding)
    returns (file: Option<seq<Record>>, err: Option<SaveError>)
    requires rootNode.Valid()
    ensures create.Some? ==> file == None && err == Some(CreatingFile(create.value))
    ensures create.None? ==>
              var e := Prefix(encoding, PreOrder(rootNode.Model, depth));
              file == Some(e.records) &&
              err == if e.err.Some? then Some(EncodingTree(e.err.value)) else None
  {
    if create.Some? {
      return None, Some(CreatingFile(create.value));
    }
    var encoder := new Encoder(encoding);
    var e := EncodeAssignmentTree(encoder, rootNode, depth);
    EmitIsPreOrderPrefix(encoding, rootNode.Model, depth);
    assert encoder.written == Emit(encoding, rootNode.Model, depth).records;
    file := Some(encoder.written);
    if e.Some? {
      return file, Some(EncodingTree(e.value));
    }
    return file, None;
  }
}

/** The C++ value tree: nodes on the heap that hold their children by shared pointer, and the deep
    copies that keep two trees apart. */
module ValueTree {
  import opened Values
  import opened JsonCodec

  /** The contents of a node: a plain value, or pointers to children. */
  datatype Variant =
    | Plain(scalar: KvsValue)
    | Pointers(items: seq<Node>)
    | Fields(fields: map<string, Node>)

  /** Contents that stand for a value, all children being valid trees within the given nodes. */
  ghost predicate Holds(value: Variant, model: KvsValue, below: set<Node>)
    reads below
    decreases below, 1
  {
    match value
    case Plain(v) => !v.Array? && !v.Object? && model == v
    case Pointers(items) =>
      && model.Array? && |model.items| == |items|
      && forall i | 0 <= i < |items| ::
           && items[i] in below && items[i].repr <= below
           && items[i].Valid() && items[i].model == model.items[i]
    case Fields(fields) =>
      && model.Object? && model.fields.Keys == fields.Keys
      && forall k | k in fields ::
           && fields[k] in below && fields[k].repr <= below
           && fields[k].Valid() && fields[k].model == model.fields[k]
  }

  class Node {
    var value: Variant
    var kind: Type

    /** The value that the tree below this node stands for. */
    ghost var model: KvsValue

    /** This node and everything below it. Children may be shared; the tree has no cycle. */
    ghost var repr: set<Node>

    ghost predicate Valid()
      reads this, repr
      decreases repr, 0
    {
      && this in repr
      && kind == TypeOf(model)
      && Holds(value, model, repr - {this})
    }

    constructor FromScalar(v: KvsValue)
      requires !v.Array? && !v.Object?
      ensures Valid() && model == v && fresh(repr)
    {
      value, kind, model := Plain(v), TypeOf(v), v;
      repr := {this};
    }

    /** The constructor from a vector of pointers copies every pointed-to tree. */
    constructor FromArray(items: seq<Node>)
      requires forall i | 0 <= i < |items| :: items[i].Valid()
      ensures Valid() && fresh(repr) && model.Array? && |model.items| == |items|
      ensures forall i | 0 <= i < |items| :: model.items[i] == items[i].model
    {
      var copied, below, whole := CopyPointers(items, set i, o | 0 <= i < |items| && o in items[i].repr :: o);
      value, kind, model := copied, TArr, whole;
      new;
      repr := {this} + below;
      assert repr - {this} == below;
    }

    /** The copy constructor. */
    constructor Copy(other: Node)
      requires other.Valid()
      ensures Valid() && fresh(repr) && model == other.model
      decreases other.repr, 1
    {
      var copied, below := CopyContents(other);
      value, kind := copied, other.kind;
      model := other.model;
      new;
      repr := {this} + below;
      assert repr - {this} == below;
    }

    /** Takes over the contents of a tree that this node is not part of. */
    method TakeContents(temp: Node)
      requires temp.Valid() && this !in temp.repr
      modifies this, temp`value
      ensures Valid() && model == old(temp.model) && repr == old(temp.repr) - {temp} + {this}
    {
      value, temp.value := temp.value, value;
      kind, model := temp.kind, temp.model;
      repr := temp.repr - {temp} + {this};
      assert repr - {this} == temp.repr - {temp};
    }

    /** The copy assignment: a deep copy first, then the exchange of contents. */
    method Assign(other: Node)
      requires other.Valid()
      modifies this
      ensures Valid() && model == old(other.model)
      ensures this != other ==> fresh(repr - {this})
      ensures this == other ==> repr == old(repr)
    {
      if this != other {
        var temp := new Node.Copy(other);
        TakeContents(temp);
      }
    }
  }

  /** New children wherever the node has children. */
  method CopyContents(other: Node) returns (value: Variant, ghost below: set<Node>)
    requires other.Valid()
    ensures fresh(below) && Holds(value, other.model, below)
    decreases other.repr, 0
  {
    below := {};
    match other.value {
      case Pointers(items) =>
        ghost var whole;
        value, below, whole := CopyPointers(items, other.repr - {other});
        assert whole.items == other.model.items;
      case Fields(fields) =>
        var copies;
        copies, below := CopyFields(fields, other.repr - {other});
        value := Fields(copies);
      case Plain(_) =>
        value := other.value;
    }
  }

  method CopyPointers(items: seq<Node>, ghost bound: set<Node>)
    returns (value: Variant, ghost below: set<Node>, ghost whole: KvsValue)
    requires forall i | 0 <= i < |items| :: items[i].Valid() && items[i].repr <= bound
    ensures fresh(below) && Holds(value, whole, below) && whole.Array? && |whole.items| == |items|
    ensures forall i | 0 <= i < |items| :: whole.items[i] == items[i].model
    decreases bound, 3
  {
    var copies;
    ghost var models;
    copies, below, models := CopyItems(items, bound);
    value, whole := Pointers(copies), Array(models);
  }

  /** New, mutually disjoint copies of the given trees. */
  method CopyItems(items: seq<Node>, ghost bound: set<Node>)
    returns (copies: seq<Node>, ghost below: set<Node>, ghost models: seq<KvsValue>)
    requires forall i | 0 <= i < |items| :: items[i].Valid() && items[i].repr <= bound
    ensures fresh(below) && |copies| == |models| == |items|
    ensures forall i | 0 <= i < |copies| ::
              copies[i] in below && copies[i].repr <= below && copies[i].Valid() && copies[i].model == models[i]
    ensures forall i | 0 <= i < |items| :: models[i] == items[i].model
    ensures forall i, j | 0 <= i < j < |copies| :: copies[i].repr !! copies[j].repr
    decreases bound, 2
  {
    copies, below, models := [], {}, [];
    for i := 0 to |items|
      invariant fresh(below) && |copies| == |models| == i
      invariant forall j | 0 <= j < i ::
                  copies[j] in below && copies[j].repr <= below && copies[j].Valid() && copies[j].model == models[j]
      invariant forall j | 0 <= j < i :: models[j] == items[j].model
      invariant forall j, l | 0 <= j < l < i :: copies[j].repr !! copies[l].repr
    {
      var c := new Node.Copy(items[i]);
      copies := copies + [c];
      models := models + [c.model];
      below := below + c.repr;
    }
  }

  method CopyFields(fields: map<string, Node>, ghost bound: set<Node>)
    returns (copies: map<string, Node>, ghost below: set<Node>)
    requires forall k | k in fields :: fields[k].Valid() && fields[k].repr <= bound
    ensures fresh(below) && copies.Keys == fields.Keys
    ensures forall k | k in copies ::
              copies[k] in below && copies[k].repr <= below && copies[k].Valid() && copies[k].model == fields[k].model
    ensures forall k, l | k in copies && l in copies && k != l :: copies[k].repr !! copies[l].repr
    decreases bound, 2
  {
    copies, below := map[], {};
    var rest := fields.Keys;
    while rest != {}
      invariant rest <= fields.Keys && copies.Keys == fields.Keys - rest && fresh(below)
      invariant forall k | k in copies ::
                  copies[k] in below && copies[k].repr <= below && copies[k].Valid() &&
                  copies[k].model == fields[k].model
      invariant forall k, l | k in copies && l in copies && k != l :: copies[k].repr !! copies[l].repr
      decreases rest
    {
      var k :| k in rest;
      var c := new Node.Copy(fields[k]);
      copies := copies[k := c];
      below := below + c.repr;
      rest := rest - {k};
    }
  }

  /** Writes outside a tree never show in it. */
  twostate lemma Untouched(tree: Node)
    requires old(tree.Valid()) && unchanged(old(tree.repr))
    ensures tree.Valid() && tree.model == old(tree.model)
  {
  }

  /** So a copy and its source stay apart: whatever is written into the nodes of the one, the other
      keeps its value. */
  method CopyThenOverwrite(source: Node, replacement: Node) returns (copy: Node)
    requires source.Valid() && replacement.Valid()
    modifies source
    ensures copy.Valid() && fresh(copy.repr) && copy.model == old(source.model)
    ensures source.Valid() && source.model == old(replacement.model)
    ensures copy.repr !! source.repr
  {
    copy := new Node.Copy(source);
    label copied:
    source.Assign(replacement);
    Untouched@copied(copy);
  }
}

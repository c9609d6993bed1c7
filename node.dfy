/** `MyNode`: a node of the processor tree with a replaceable processor and a
    list of child nodes, and the code that runs a processor on a buffer. */
module Nodes {
  import opened Common
  import opened Codec
  import opened Format
  import opened Processors
  import Blur
  import Brightness
  import Mirror
  import StackBlur

  /** A fresh `ByteArray` holding the buffer. */
  method ToByteArray(data: seq<Byte>) returns (a: array<Byte>)
    ensures fresh(a) && a[..] == data
  {
    a := new Byte[|data|](i requires 0 <= i < |data| => data[i]);
  }

  /** `processor.process(data, children)` for a processor other than a
      chain: the format check, then either the codec path or the raw method
      (`stackBlurRawArgb`, `adjustBrightnessRawArgb8888`, or the mirror
      loops). The children are not used. */
  method RunProcessor(processor: Processor, data: seq<Byte>, platform: Platform) returns (res: Result<seq<Byte>>)
    requires !processor.ChainProcessor?
    ensures res == Processors.Process(Node(processor, []), data, platform)
  {
    match processor
    case BlurProcessor(w, h, radius) =>
      if DetectFormat(data).Some? {
        res := Blur.BlurImageBytes(data, radius, platform);
      } else {
        var input := ToByteArray(data);
        res := StackBlur.StackBlurRawArgb(input, w, h, radius);
      }
    case BrightnessProcessor(b, w, h) =>
      if DetectFormat(data).Some? {
        res := Brightness.AdjustImageBrightness(data, b, platform);
      } else {
        var input := ToByteArray(data);
        res := Brightness.AdjustBrightnessRawArgb8888(input, w, h, b);
      }
    case MirrorProcessor(w, h) =>
      var input := ToByteArray(data);
      res := Mirror.MirrorProcessor(input, w, h);
  }

  class MyNode {
    /** `val children: ArrayList<MyNode>`. */
    var children: seq<MyNode>
    /** `private var processor: ImageProcessor`. */
    var processor: Processor
    /** This node and every node below it. */
    ghost var Repr: set<object>

    /** The nodes below form a tree: no node is its own descendant. */
    ghost predicate Valid()
      reads this, Repr
      decreases Repr, 1
    {
      this in Repr &&
      forall c :: c in children ==>
        c in Repr && c.Repr <= Repr && this !in c.Repr && c.Valid()
    }

    /** The tree below this node, as a value. */
    ghost function Tree(): (t: Node)
      reads this, Repr
      requires Valid()
      ensures t.processor == processor && |t.children| == |children|
      decreases Repr, 0
    {
      Node(processor, Trees(children, Repr - {this}))
    }

    /** A fresh node: no children and a `ChainProcessor`. */
    constructor ()
      ensures Valid() && fresh(Repr)
      ensures children == [] && processor == ChainProcessor
      ensures Tree() == Node(ChainProcessor, [])
    {
      children := [];
      processor := ChainProcessor;
      Repr := {this};
    }

    /** `process(imageData)`: hand the buffer and the children to the
        processor. Nothing of the tree changes. */
    method Process(data: seq<Byte>, platform: Platform) returns (res: Result<seq<Byte>>)
      requires Valid()
      ensures res == Processors.Process(Tree(), data, platform)
      decreases Repr, 3
    {
      if processor.ChainProcessor? {
        res := ChainProcess(data, platform);
      } else {
        res := RunProcessor(processor, data, platform);
        ChildrenIgnored(processor, [], Tree().children, data, platform);
      }
    }

    /** `ChainProcessor.process(imageData, children)` for this node's
        children: `signal` goes through each child in turn. */
    method ChainProcess(data: seq<Byte>, platform: Platform) returns (res: Result<seq<Byte>>)
      requires Valid()
      ensures res == Processors.Chain(Tree().children, data, platform)
      decreases Repr, 2
    {
      ghost var trees := Tree().children;
      var signal := data;
      var i := 0;
      while i < |children|
        invariant 0 <= i <= |children|
        invariant Processors.Chain(trees, data, platform) == Processors.Chain(trees[i..], signal, platform)
      {
        var child := children[i];
        assert child in children;
        var out := child.Process(signal, platform);
        assert trees[i..][0] == trees[i] == child.Tree();
        assert trees[i..][1..] == trees[i + 1..];
        ChainHead(trees[i..], signal, platform);
        if out.Err? {
          return out;
        }
        signal := out.value;
        i := i + 1;
      }
      return Ok(signal);
    }

    /** `getNextSamples(numSamples)`: process an all-zero buffer of that
        length; a negative length fails when the array is allocated. */
    method GetNextSamples(numSamples: int, platform: Platform) returns (res: Result<seq<Byte>>)
      requires Valid()
      ensures numSamples < 0 ==> res == Err(NegativeArraySize)
      ensures 0 <= numSamples ==> res == Processors.Process(Tree(), seq(numSamples, _ => 0), platform)
    {
      if numSamples < 0 {
        return Err(NegativeArraySize);
      }
      var emptyData := new Byte[numSamples](_ => 0);
      assert emptyData[..] == seq(numSamples, _ => 0);
      res := Process(emptyData[..], platform);
    }

    /** `setProcessor(processor)`: overwrite the processor; the children stay. */
    method SetProcessor(p: Processor)
      requires Valid()
      modifies this
      ensures Valid() && Repr == old(Repr)
      ensures processor == p && children == old(children)
      ensures Tree() == Node(p, old(Tree().children))
    {
      processor := p;
    }

    /** `children.add(index, child)`, as the applier's `insertBottomUp` does;
        an index outside 0..|children| throws and changes nothing. */
    method InsertChild(index: int, child: MyNode) returns (res: Result<()>)
      requires Valid() && child.Valid() && this !in child.Repr
      modifies this
      ensures Valid() && processor == old(processor)
      ensures !(0 <= index <= old(|children|)) ==>
        res == Err(IndexOutOfBounds) && children == old(children) && Repr == old(Repr)
      ensures 0 <= index <= old(|children|) ==>
        res == Ok(()) && children == old(children[..index]) + [child] + old(children[index..])
        && Repr == old(Repr) + child.Repr
        && Tree() == Node(processor, old(Tree().children[..index]) + [child.Tree()] + old(Tree().children[index..]))
    {
      if !(0 <= index <= |children|) {
        return Err(IndexOutOfBounds);
      }
      ghost var before := Tree().children;
      ghost var siblings := children;
      children := children[..index] + [child] + children[index..];
      Repr := Repr + child.Repr;
      forall c | c in children
        ensures c in Repr && c.Repr <= Repr && this !in c.Repr && c.Valid()
      {
        if c != child {
          assert c in siblings;
        }
      }
      assert Valid();
      TreesSplice(siblings, index, child, Repr - {this});
      assert Trees(siblings, Repr - {this}) == before;
      return Ok(());
    }
  }

  /** Inserting a node into a list inserts its tree into the list of trees. */
  lemma TreesSplice(nodes: seq<MyNode>, index: int, child: MyNode, R: set<object>)
    requires forall c :: c in nodes ==> c in R && c.Repr <= R && c.Valid()
    requires child in R && child.Repr <= R && child.Valid()
    requires 0 <= index <= |nodes|
    ensures Trees(nodes[..index] + [child] + nodes[index..], R)
         == Trees(nodes, R)[..index] + [child.Tree()] + Trees(nodes, R)[index..]
  {
    var spliced := nodes[..index] + [child] + nodes[index..];
    SplicedMembers(nodes, index, child, R);
    var ts := Trees(nodes, R);
    var expected := ts[..index] + [child.Tree()] + ts[index..];
    var got := Trees(spliced, R);
    forall k | 0 <= k < |spliced|
      ensures got[k] == expected[k]
    {
      SplicedAt(nodes, index, child, k);
    }
  }

  /** The nodes of a spliced list are the old ones and the inserted one. */
  lemma SplicedMembers(nodes: seq<MyNode>, index: int, child: MyNode, R: set<object>)
    requires forall c :: c in nodes ==> c in R && c.Repr <= R && c.Valid()
    requires child in R && child.Repr <= R && child.Valid()
    requires 0 <= index <= |nodes|
    ensures forall c: MyNode :: c in nodes[..index] + [child] + nodes[index..] ==> c in R && c.Repr <= R && c.Valid()
  {
    var spliced := nodes[..index] + [child] + nodes[index..];
    forall c: MyNode | c in spliced
      ensures c in R && c.Repr <= R && c.Valid()
    {
      if c != child {
        assert c in nodes[..index] || c in nodes[index..];
      }
    }
  }

  /** Position k of a list with `child` inserted at `index`. */
  lemma SplicedAt<T>(xs: seq<T>, index: int, x: T, k: int)
    requires 0 <= index <= |xs| && 0 <= k <= |xs|
    ensures k < index ==> (xs[..index] + [x] + xs[index..])[k] == xs[k]
    ensures k == index ==> (xs[..index] + [x] + xs[index..])[k] == x
    ensures index < k ==> (xs[..index] + [x] + xs[index..])[k] == xs[k - 1]
  {
  }

  /** The trees below a list of nodes, one per node. */
  ghost function Trees(nodes: seq<MyNode>, R: set<object>): (ts: seq<Node>)
    reads R
    requires forall c :: c in nodes ==> c in R && c.Repr <= R && c.Valid()
    ensures |ts| == |nodes|
    ensures forall i :: 0 <= i < |nodes| ==> ts[i] == nodes[i].Tree()
    decreases R, |nodes| + 1
  {
    if nodes == [] then []
    else [nodes[0].Tree()] + Trees(nodes[1..], R)
  }
}

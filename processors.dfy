/** The processors a node can hold and what a tree of nodes computes:
    `ChainProcessor` feeds the buffer through the node's children in order,
    the blur, brightness and mirror processors transform it and ignore the
    children. */
module Processors {
  import opened Common
  import opened Codec
  import opened StackBlurSpec
  import Blur
  import Brightness
  import Mirror

  /** A blur radius for which the kernel's 32-bit arithmetic cannot overflow. */
  type Radius = r: int | r <= MaxRadius

  /** An `ImageProcessor`, with the values its `() -> Int` parameters return
      at the time of the call. */
  datatype Processor =
    | ChainProcessor
    | BlurProcessor(width: int, height: int, radius: Radius)
    | BrightnessProcessor(brightness: int, width: int, height: int)
    | MirrorProcessor(width: int, height: int)

  /** A node tree as a value: the processor of a node and its children. */
  datatype Node = Node(processor: Processor, children: seq<Node>)

  /** `node.process(data)`, that is `processor.process(data, children)`. */
  function Process(node: Node, data: seq<Byte>, platform: Platform): (r: Result<seq<Byte>>)
    ensures node.processor == ChainProcessor && node.children == [] ==> r == Ok(data)
    ensures node.processor.BlurProcessor? && node.processor.radius < 1 ==> r == Err(IllegalArgument)
    ensures node.processor.BrightnessProcessor? && !(-255 <= node.processor.brightness <= 255)
            ==> r == Err(IllegalArgument)
    ensures node.processor.MirrorProcessor? ==>
      (r == Err(IllegalArgument) <==> |data| != Wrap(node.processor.width * node.processor.height * 4))
    decreases node, 1
  {
    match node.processor
    case ChainProcessor => Chain(node.children, data, platform)
    case BlurProcessor(w, h, radius) => Blur.BlurProcess(data, w, h, radius, platform)
    case BrightnessProcessor(b, w, h) => Brightness.BrightnessProcess(data, b, w, h, platform)
    case MirrorProcessor(w, h) => Mirror.MirrorProcess(data, w, h)
  }

  /** `ChainProcessor.process(data, children)`: each child processes the
      previous child's output; the first exception ends the chain. */
  function Chain(children: seq<Node>, data: seq<Byte>, platform: Platform): (r: Result<seq<Byte>>)
    ensures children == [] ==> r == Ok(data)
    decreases children, 0
  {
    if children == [] then Ok(data)
    else match Process(children[0], data, platform)
      case Err(f) => Err(f)
      case Ok(next) => Chain(children[1..], next, platform)
  }

  /** Feed a result on to a chain of further children. */
  function Then(r: Result<seq<Byte>>, children: seq<Node>, platform: Platform): Result<seq<Byte>>
  {
    match r
    case Err(f) => Err(f)
    case Ok(data) => Chain(children, data, platform)
  }

  /** One step of the chain: the first child, then the rest. */
  lemma ChainHead(children: seq<Node>, data: seq<Byte>, platform: Platform)
    requires children != []
    ensures Chain(children, data, platform)
         == Then(Process(children[0], data, platform), children[1..], platform)
  {
  }

  // ---------------------------------------------------------------------
  // Properties of the chain (Chain.kt:11-17)
  // ---------------------------------------------------------------------

  /** A chain of one child is that child. */
  lemma ChainSingle(child: Node, data: seq<Byte>, platform: Platform)
    ensures Chain([child], data, platform) == Process(child, data, platform)
  {
    assert [child][1..] == [];
  }

  /** Chaining `xs + ys` is chaining `ys` over the output of chaining `xs`. */
  lemma {:induction false} ChainAppend(xs: seq<Node>, ys: seq<Node>, data: seq<Byte>, platform: Platform)
    ensures Chain(xs + ys, data, platform) == Then(Chain(xs, data, platform), ys, platform)
    decreases |xs|
  {
    if xs == [] {
      assert xs + ys == ys;
    } else {
      assert (xs + ys)[0] == xs[0];
      assert (xs + ys)[1..] == xs[1..] + ys;
      match Process(xs[0], data, platform)
      case Err(f) =>
      case Ok(next) =>
        ChainAppend(xs[1..], ys, next, platform);
    }
  }

  /** The chain adds no transform of its own: its result is the last child's
      output on what the children before it produced. */
  lemma ChainLast(children: seq<Node>, data: seq<Byte>, platform: Platform)
    requires children != []
    ensures Chain(children, data, platform)
         == match Chain(children[..|children| - 1], data, platform)
            case Err(f) => Err(f)
            case Ok(prev) => Process(children[|children| - 1], prev, platform)
  {
    var n := |children| - 1;
    assert children == children[..n] + [children[n]];
    ChainAppend(children[..n], [children[n]], data, platform);
    match Chain(children[..n], data, platform)
    case Err(f) =>
    case Ok(prev) => ChainSingle(children[n], prev, platform);
  }

  /** A child that fails stops the chain: nothing after it runs. */
  lemma {:induction false} ChainStopsAtFailure(xs: seq<Node>, ys: seq<Node>, data: seq<Byte>, platform: Platform)
    requires Chain(xs, data, platform).Err?
    ensures Chain(xs + ys, data, platform) == Chain(xs, data, platform)
  {
    ChainAppend(xs, ys, data, platform);
  }

  /** A chain nested as the first child of a chain runs as if its children
      were spliced in. */
  lemma NestedChain(xs: seq<Node>, ys: seq<Node>, data: seq<Byte>, platform: Platform)
    ensures Chain([Node(ChainProcessor, xs)] + ys, data, platform) == Chain(xs + ys, data, platform)
  {
    var inner := Node(ChainProcessor, xs);
    assert ([inner] + ys)[0] == inner;
    assert ([inner] + ys)[1..] == ys;
    ChainAppend(xs, ys, data, platform);
  }

  /** Only a chain looks at the children; the other processors give the same
      result whatever the children are. */
  lemma ChildrenIgnored(p: Processor, c1: seq<Node>, c2: seq<Node>, data: seq<Byte>, platform: Platform)
    requires !p.ChainProcessor?
    ensures Process(Node(p, c1), data, platform) == Process(Node(p, c2), data, platform)
  {
  }

  /** A node with a chain processor and no children returns its input. */
  lemma EmptyChainIsIdentity(data: seq<Byte>, platform: Platform)
    ensures Process(Node(ChainProcessor, []), data, platform) == Ok(data)
  {
  }

  /** Two mirror nodes in a chain give back a buffer of the declared size. */
  lemma MirrorTwiceInChain(w: int, h: int, data: seq<Byte>, platform: Platform)
    requires 1 <= w && 1 <= h && |data| == w * h * 4 < 0x8000_0000
    ensures Chain([Node(MirrorProcessor(w, h), []), Node(MirrorProcessor(w, h), [])], data, platform) == Ok(data)
  {
    var m := Node(MirrorProcessor(w, h), []);
    Mirror.ProcessTwice(data, w, h);
    ChainAppend([m], [m], data, platform);
    ChainSingle(m, data, platform);
    ChainSingle(m, Mirror.Mirrored(data, w, h), platform);
    assert [m] + [m] == [m, m];
  }
}

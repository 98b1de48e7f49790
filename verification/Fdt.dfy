/** The flattened device tree parser of migvm.

    Part one is the parser: a recursive descent over the structure block that reads words, skips
    names and looks property names up in the strings block.  A read outside the two blocks is
    undefined behaviour in the source and is the outcome `Fault` here.

    Part two is the format, sections 5.4 and 5.5 of the Devicetree Specification v0.4: the tokens an
    encoder may emit, with arbitrary padding bytes and NOPs anywhere inside the root node.

    Part three proves that the parser undoes every such encoding, and that it refuses those in which the
    specification's leading NOPs come before the root. */
module Fdt {
  import opened Bytes

  const FDT_BEGIN_NODE := 1
  const FDT_END_NODE := 2
  const FDT_PROP := 3
  const FDT_NOP := 4
  const FDT_END := 9

  // ---------------------------------------------------------------- the parser

  /** A property as collected: its name, and where its value lies in the structure block. */
  datatype RawProp = RawProp(name: seq<byte>, data: nat, len: nat)

  datatype CollectedNode = CollectedNode(props: seq<RawProp>, children: seq<CollectedNode>) {
    function AddProp(p: RawProp): CollectedNode {
      CollectedNode(props + [p], children)
    }
    function AddChild(c: CollectedNode): CollectedNode {
      CollectedNode(props, children + [c])
    }
  }

  const EMPTY_NODE := CollectedNode([], [])

  datatype Outcome = Fault | NotATree | Done(node: CollectedNode, offset: nat)

  function Align4(v: nat): (r: nat)
    ensures v <= r < v + 4 && r % 4 == 0
  {
    (v + 3) / 4 * 4
  }

  /** The first zero byte at or after `off`, if the block has one. */
  function Nul(s: seq<byte>, off: nat): (r: Option<nat>)
    ensures r.Some? ==> off <= r.value < |s| && s[r.value] == 0 && 0 !in s[off..r.value]
    ensures r.None? && off <= |s| ==> 0 !in s[off..]
    decreases |s| - off
  {
    if off >= |s| then None
    else if s[off] == 0 then Some(off)
    else
      var r := Nul(s, off + 1);
      assert r.Some? ==> s[off..r.value] == [s[off]] + s[off + 1..r.value];
      assert r.None? ==> s[off..] == [s[off]] + s[off + 1..];
      r
  }

  function StringAt(strings: seq<byte>, off: nat): Option<seq<byte>> {
    match Nul(strings, off)
    case None => None
    case Some(k) => Some(strings[off..k])
  }

  /** What collecting from `off` yields, `acc` holding what the current node has so far. */
  function Collect(s: seq<byte>, strings: seq<byte>, off: nat, acc: CollectedNode): (r: Outcome)
    ensures !r.NotATree?
    ensures r.Done? ==> r.offset >= off
    decreases if off < |s| then |s| - off else 0
  {
    if off >= |s| then Done(acc, off)
    else if off + 4 > |s| then Fault
    else
      var token := U32At(s, off);
      if token == FDT_BEGIN_NODE then
        match Nul(s, off + 4)
        case None => Fault
        case Some(k) =>
          match Collect(s, strings, Align4(k + 1), EMPTY_NODE) {
            case Done(child, next) => Collect(s, strings, next, acc.AddChild(child))
            case _ => Fault
          }
      else if token == FDT_END_NODE || token == FDT_END then Done(acc, off + 4)
      else if token == FDT_PROP then
        if off + 12 > |s| then Fault
        else
          match StringAt(strings, U32At(s, off + 8))
          case None => Fault
          case Some(name) =>
            var len := U32At(s, off + 4);
            Collect(s, strings, off + 12 + Align4(len), acc.AddProp(RawProp(name, off + 12, len)))
      else Collect(s, strings, off + 4, acc)
  }

  /** What parsing a whole structure block yields. */
  function Parse(s: seq<byte>, strings: seq<byte>): Outcome {
    if |s| < 4 then Fault
    else if U32At(s, 0) != FDT_BEGIN_NODE then NotATree
    else match Nul(s, 4)
      case None => Fault
      case Some(k) => Collect(s, strings, Align4(k + 1), EMPTY_NODE)
  }

  /** Blocks that are not well-formed: fewer than four bytes where a token should be, a node's name that
      does not end, a property whose header is cut or whose name the strings block does not end, each
      makes the parse fail at once, whatever was collected before. */
  lemma MalformedFaults(s: seq<byte>, strings: seq<byte>, off: nat, acc: CollectedNode)
    requires off < |s|
    ensures |s| - off < 4 ==> Collect(s, strings, off, acc) == Fault
    ensures |s| - off >= 4 && U32At(s, off) == 1 && 0 !in s[off + 4..] ==> Collect(s, strings, off, acc) == Fault
    ensures 4 <= |s| - off < 12 && U32At(s, off) == 3 ==> Collect(s, strings, off, acc) == Fault
    ensures |s| - off >= 12 && U32At(s, off) == 3 && (U32At(s, off + 8) > |strings| || 0 !in strings[U32At(s, off + 8)..]) ==>
      Collect(s, strings, off, acc) == Fault
  {
    hide U32At;
    if off + 4 <= |s| && Nul(s, off + 4).Some? { assert 0 in s[off + 4..]; }
    if off + 12 <= |s| {
      var at := U32At(s, off + 8);
      if Nul(strings, at).Some? { assert 0 in strings[at..]; }
    }
  }

  method SkipString(s: seq<byte>, offset: nat) returns (r: Option<nat>)
    ensures Nul(s, offset).None? <==> r.None?
    ensures r.Some? ==> r.value == Align4(Nul(s, offset).value + 1)
  {
    var o := offset;
    while true
      invariant offset <= o
      invariant Nul(s, o) == Nul(s, offset)
      decreases |s| - o
    {
      if o >= |s| { return None; }
      var b := s[o];
      o := o + 1;
      if b == 0 { break; }
    }
    r := Some(Align4(o));
  }

  method GetStringName(strings: seq<byte>, offset: nat) returns (r: Option<seq<byte>>)
    ensures r == StringAt(strings, offset)
  {
    var name: seq<byte> := [];
    var i := 0;
    while true
      invariant Nul(strings, offset + i) == Nul(strings, offset)
      invariant offset + i <= |strings| || i == 0
      invariant name == if i == 0 then [] else strings[offset..offset + i]
      decreases |strings| - i
    {
      if offset + i >= |strings| { return None; }
      var b := strings[offset + i];
      if b == 0 { break; }
      name := name + [b];
      i := i + 1;
    }
    r := Some(name);
  }

  method CollectNode(s: seq<byte>, strings: seq<byte>, start: nat) returns (r: Outcome)
    ensures r == Collect(s, strings, start, EMPTY_NODE)
    decreases if start < |s| then |s| - start else 0
  {
    hide U32At, Align4, Nul, StringAt;
    var offset, node := start, EMPTY_NODE;
    while offset < |s|
      invariant offset >= start
      invariant Collect(s, strings, offset, node) == Collect(s, strings, start, EMPTY_NODE)
      decreases |s| - offset
    {
      if offset + 4 > |s| { return Fault; }
      var token := U32At(s, offset);
      offset := offset + 4;
      if token == FDT_BEGIN_NODE {
        var next := SkipString(s, offset);
        if next.None? { return Fault; }
        var child := CollectNode(s, strings, next.value);
        if !child.Done? { return Fault; }
        offset := child.offset;
        node := node.AddChild(child.node);
      } else if token == FDT_END_NODE {
        break;
      } else if token == FDT_PROP {
        if offset + 8 > |s| { return Fault; }
        var propLen := U32At(s, offset);
        var nameOff := U32At(s, offset + 4);
        offset := offset + 8;
        var name := GetStringName(strings, nameOff);
        if name.None? { return Fault; }
        node := node.AddProp(RawProp(name.value, offset, propLen));
        offset := offset + Align4(propLen);
      } else if token == FDT_END {
        break;
      }
    }
    r := Done(node, offset);
  }

  method ParseBlocks(s: seq<byte>, strings: seq<byte>) returns (r: Outcome)
    ensures r == Parse(s, strings)
  {
    if |s| < 4 { return Fault; }
    if U32At(s, 0) != FDT_BEGIN_NODE { return NotATree; }
    var offset := SkipString(s, 4);
    if offset.None? { return Fault; }
    r := CollectNode(s, strings, offset.value);
  }

  // ---------------------------------------------------------------- the format

  /** One token group of a node body.  Padding bytes are free: the encoder may leave anything there. */
  datatype Item =
    | Nop
    | Prop(name: seq<byte>, nameOff: nat, value: seq<byte>, pad: seq<byte>)
    | Node(name: seq<byte>, pad: seq<byte>, body: Items)

  /** A node body, up to and including its END_NODE token. */
  datatype Items = EndNode | More(item: Item, rest: Items)

  ghost predicate PadsTo4(len: nat, pad: seq<byte>) {
    len + |pad| == Align4(len)
  }

  /** A well-formed body: names without zero bytes, lengths that fit a word, and property names that the
      strings block holds, zero-terminated, at the offsets given. */
  ghost predicate WellFormed(strings: seq<byte>, items: Items) {
    match items
    case EndNode => true
    case More(item, rest) => WellFormedItem(strings, item) && WellFormed(strings, rest)
  }

  ghost predicate WellFormedItem(strings: seq<byte>, item: Item) {
    match item
    case Nop => true
    case Prop(name, nameOff, value, pad) =>
      && 0 !in name && At(strings, nameOff, name + [0])
      && nameOff < TWO_32 && |value| < TWO_32 && PadsTo4(|value|, pad)
    case Node(name, pad, body) =>
      0 !in name && PadsTo4(|name| + 1, pad) && WellFormed(strings, body)
  }

  ghost function Encode(strings: seq<byte>, items: Items): seq<byte>
    requires WellFormed(strings, items)
  {
    match items
    case EndNode => Be32(FDT_END_NODE)
    case More(item, rest) => EncodeItem(strings, item) + Encode(strings, rest)
  }

  ghost function EncodeItem(strings: seq<byte>, item: Item): seq<byte>
    requires WellFormedItem(strings, item)
  {
    match item
    case Nop => Be32(FDT_NOP)
    case Prop(_, nameOff, value, pad) => Be32(FDT_PROP) + (Be32(|value|) + (Be32(nameOff) + (value + pad)))
    case Node(name, pad, body) => Be32(FDT_BEGIN_NODE) + ((name + [0]) + (pad + Encode(strings, body)))
  }

  lemma SumAligned(a: nat, b: nat)
    requires a % 4 == 0 && b % 4 == 0
    ensures (a + b) % 4 == 0
  {
  }

  lemma {:induction false} EncodeAligned(strings: seq<byte>, items: Items)
    requires WellFormed(strings, items)
    ensures |Encode(strings, items)| % 4 == 0
  {
    match items
    case EndNode =>
    case More(item, rest) =>
      EncodeItemAligned(strings, item);
      EncodeAligned(strings, rest);
      SumAligned(|EncodeItem(strings, item)|, |Encode(strings, rest)|);
  }

  lemma {:induction false} EncodeItemAligned(strings: seq<byte>, item: Item)
    requires WellFormedItem(strings, item)
    ensures |EncodeItem(strings, item)| % 4 == 0
  {
    match item
    case Nop =>
    case Prop(_, _, value, _) =>
      SumAligned(12, Align4(|value|));
    case Node(name, pad, body) =>
      EncodeAligned(strings, body);
      SumAligned(4, Align4(|name| + 1));
      SumAligned(4 + Align4(|name| + 1), |Encode(strings, body)|);
  }

  datatype Property = Property(name: seq<byte>, value: seq<byte>)

  /** The device tree itself. */
  datatype Tree = Tree(props: seq<Property>, children: seq<Tree>)

  ghost function TreeOf(items: Items): Tree
    decreases items, 1
  {
    Tree(PropsOf(items), ChildrenOf(items))
  }

  ghost function PropsOf(items: Items): seq<Property> {
    match items
    case EndNode => []
    case More(Prop(name, _, value, _), rest) => [Property(name, value)] + PropsOf(rest)
    case More(_, rest) => PropsOf(rest)
  }

  ghost function ChildrenOf(items: Items): seq<Tree>
    decreases items, 0
  {
    match items
    case EndNode => []
    case More(Node(_, _, body), rest) => [TreeOf(body)] + ChildrenOf(rest)
    case More(_, rest) => ChildrenOf(rest)
  }

  // ---------------------------------------------------------------- the parser undoes the format

  ghost predicate ReadsProp(s: seq<byte>, raw: RawProp, p: Property) {
    raw.name == p.name && raw.len == |p.value| && At(s, raw.data, p.value)
  }

  /** The collected node, read through the structure block, is the given tree. */
  ghost predicate Reads(s: seq<byte>, node: CollectedNode, tree: Tree)
    decreases node
  {
    && |node.props| == |tree.props|
    && (forall i | 0 <= i < |node.props| :: ReadsProp(s, node.props[i], tree.props[i]))
    && |node.children| == |tree.children|
    && (forall i | 0 <= i < |node.children| :: Reads(s, node.children[i], tree.children[i]))
  }

  lemma ReadsAddProp(s: seq<byte>, node: CollectedNode, tree: Tree, raw: RawProp, p: Property)
    requires Reads(s, node, tree) && ReadsProp(s, raw, p)
    ensures Reads(s, node.AddProp(raw), Tree(tree.props + [p], tree.children))
  {
  }

  lemma ReadsAddChild(s: seq<byte>, node: CollectedNode, tree: Tree, child: CollectedNode, c: Tree)
    requires Reads(s, node, tree) && Reads(s, child, c)
    ensures Reads(s, node.AddChild(child), Tree(tree.props, tree.children + [c]))
  {
  }

  /** The first zero byte found is the one that ends an encoded name. */
  lemma {:induction false} NulAfterName(s: seq<byte>, off: nat, name: seq<byte>)
    requires 0 !in name && At(s, off, name + [0])
    ensures Nul(s, off) == Some(off + |name|)
    decreases name
  {
    AtSplit(s, off, name, [0]);
    if name == [] {
      assert s[off..off + 1][0] == 0;
    } else {
      assert s[off] == s[off..off + |name|][0];
      assert name == [name[0]] + name[1..];
      AtSplit(s, off, [name[0]], name[1..]);
      AtSplit(s, off + 1, name[1..], [0]);
      NulAfterName(s, off + 1, name[1..]);
    }
  }

  lemma CollectsEnd(s: seq<byte>, strings: seq<byte>, off: nat, acc: CollectedNode)
    requires At(s, off, Be32(FDT_END_NODE))
    ensures Collect(s, strings, off, acc) == Done(acc, off + 4)
  {
    Be32RoundTrip(s, off, FDT_END_NODE);
  }

  lemma CollectsNop(s: seq<byte>, strings: seq<byte>, off: nat, acc: CollectedNode)
    requires At(s, off, Be32(FDT_NOP))
    ensures Collect(s, strings, off, acc) == Collect(s, strings, off + 4, acc)
  {
    Be32RoundTrip(s, off, FDT_NOP);
  }

  lemma PropWords(s: seq<byte>, off: nat, nameOff: nat, value: seq<byte>, pad: seq<byte>)
    requires nameOff < TWO_32 && |value| < TWO_32
    requires At(s, off, Be32(FDT_PROP) + (Be32(|value|) + (Be32(nameOff) + (value + pad))))
    ensures U32At(s, off) == FDT_PROP && U32At(s, off + 4) == |value| && U32At(s, off + 8) == nameOff
    ensures At(s, off + 12, value)
  {
    AtSplit(s, off, Be32(FDT_PROP), Be32(|value|) + (Be32(nameOff) + (value + pad)));
    AtSplit(s, off + 4, Be32(|value|), Be32(nameOff) + (value + pad));
    AtSplit(s, off + 8, Be32(nameOff), value + pad);
    AtSplit(s, off + 12, value, pad);
    Be32RoundTrip(s, off, FDT_PROP);
    Be32RoundTrip(s, off + 4, |value|);
    Be32RoundTrip(s, off + 8, nameOff);
  }

  /** A name lookup gives back the name that the strings block holds at the offset. */
  lemma NameIsFound(strings: seq<byte>, off: nat, name: seq<byte>)
    requires 0 !in name && At(strings, off, name + [0])
    ensures StringAt(strings, off) == Some(name)
  {
    NulAfterName(strings, off, name);
    AtSplit(strings, off, name, [0]);
  }

  lemma CollectsProp(s: seq<byte>, strings: seq<byte>, item: Item, off: nat, acc: CollectedNode)
    requires item.Prop? && WellFormedItem(strings, item) && At(s, off, EncodeItem(strings, item))
    ensures |EncodeItem(strings, item)| == 12 + Align4(|item.value|)
    ensures var raw := RawProp(item.name, off + 12, |item.value|);
      && ReadsProp(s, raw, Property(item.name, item.value))
      && Collect(s, strings, off, acc) == Collect(s, strings, off + 12 + Align4(|item.value|), acc.AddProp(raw))
  {
    hide StringAt;
    PropWords(s, off, item.nameOff, item.value, item.pad);
    NameIsFound(strings, item.nameOff, item.name);
  }

  lemma Align4Shift(off: nat, len: nat)
    requires off % 4 == 0
    ensures Align4(off + len) == off + Align4(len)
  {
  }

  lemma NodeWords(s: seq<byte>, off: nat, name: seq<byte>, pad: seq<byte>, e: seq<byte>)
    requires 0 !in name
    requires At(s, off, Be32(FDT_BEGIN_NODE) + ((name + [0]) + (pad + e)))
    ensures U32At(s, off) == FDT_BEGIN_NODE
    ensures Nul(s, off + 4) == Some(off + 4 + |name|)
    ensures At(s, off + 5 + |name| + |pad|, e)
  {
    AtSplit(s, off, Be32(FDT_BEGIN_NODE), (name + [0]) + (pad + e));
    AtSplit(s, off + 4, name + [0], pad + e);
    AtSplit(s, off + 4 + |name| + 1, pad, e);
    Be32RoundTrip(s, off, FDT_BEGIN_NODE);
    NulAfterName(s, off + 4, name);
  }

  /** The name of an encoded node is skipped up to the first token of its body. */
  lemma EntersNode(s: seq<byte>, strings: seq<byte>, name: seq<byte>, pad: seq<byte>, body: Items, off: nat)
    requires WellFormedItem(strings, Node(name, pad, body)) && off % 4 == 0
    requires At(s, off, EncodeItem(strings, Node(name, pad, body)))
    ensures |EncodeItem(strings, Node(name, pad, body))| == 5 + |name| + |pad| + |Encode(strings, body)|
    ensures U32At(s, off) == FDT_BEGIN_NODE && Nul(s, off + 4) == Some(off + 4 + |name|)
    ensures var start := off + 5 + |name| + |pad|;
      Align4(off + 5 + |name|) == start && start % 4 == 0 && At(s, start, Encode(strings, body))
  {
    hide At;
    NodeWords(s, off, name, pad, Encode(strings, body));
    Align4Shift(off + 4, |name| + 1);
  }

  lemma CollectsNode(s: seq<byte>, strings: seq<byte>, off: nat, k: nat, acc: CollectedNode)
    requires off + 4 <= |s| && U32At(s, off) == FDT_BEGIN_NODE && Nul(s, off + 4) == Some(k)
    requires Collect(s, strings, Align4(k + 1), EMPTY_NODE).Done?
    ensures var child := Collect(s, strings, Align4(k + 1), EMPTY_NODE);
      Collect(s, strings, off, acc) == Collect(s, strings, child.offset, acc.AddChild(child.node))
  {
  }

  ghost function Joined(t: Tree, u: Tree): Tree {
    Tree(t.props + u.props, t.children + u.children)
  }

  lemma JoinedProp(tree: Tree, item: Item, rest: Items)
    requires item.Prop?
    ensures var p := Property(item.name, item.value);
      Joined(Tree(tree.props + [p], tree.children), TreeOf(rest)) == Joined(tree, TreeOf(More(item, rest)))
  {
  }

  lemma JoinedNode(tree: Tree, item: Item, rest: Items)
    requires item.Node?
    ensures var c := TreeOf(item.body);
      Joined(Tree(tree.props, tree.children + [c]), TreeOf(rest)) == Joined(tree, TreeOf(More(item, rest)))
  {
  }

  /** Collecting from the start of an encoded body extends the node at hand by exactly the properties
      and children of that body, and stops just past its END_NODE. */
  lemma {:induction false} CollectUndoesEncode(s: seq<byte>, strings: seq<byte>, items: Items, off: nat, acc: CollectedNode, tree: Tree)
    requires WellFormed(strings, items) && off % 4 == 0
    requires At(s, off, Encode(strings, items))
    requires Reads(s, acc, tree)
    ensures var r := Collect(s, strings, off, acc);
      && r.Done? && r.offset == off + |Encode(strings, items)|
      && Reads(s, r.node, Joined(tree, TreeOf(items)))
    decreases items, 0
  {
    hide Collect;
    hide At;
    match items
    case EndNode =>
      CollectsEnd(s, strings, off, acc);
      assert Joined(tree, TreeOf(items)) == tree;
    case More(item, rest) =>
      var e := EncodeItem(strings, item);
      EncodeItemAligned(strings, item);
      SumAligned(off, |e|);
      AtSplit(s, off, e, Encode(strings, rest));
      match item {
        case Nop =>
          CollectsNop(s, strings, off, acc);
          CollectUndoesEncode(s, strings, rest, off + 4, acc, tree);
        case Prop(name, _, value, _) =>
          CollectsProp(s, strings, item, off, acc);
          var raw, p := RawProp(name, off + 12, |value|), Property(name, value);
          ReadsAddProp(s, acc, tree, raw, p);
          var tree' := Tree(tree.props + [p], tree.children);
          CollectUndoesEncode(s, strings, rest, off + |e|, acc.AddProp(raw), tree');
          JoinedProp(tree, item, rest);
        case Node(name, pad, body) =>
          CollectsChild(s, strings, name, pad, body, off, acc);
          var child := Collect(s, strings, off + 5 + |name| + |pad|, EMPTY_NODE).node;
          ReadsAddChild(s, acc, tree, child, TreeOf(body));
          var tree' := Tree(tree.props, tree.children + [TreeOf(body)]);
          CollectUndoesEncode(s, strings, rest, off + |e|, acc.AddChild(child), tree');
          JoinedNode(tree, item, rest);
      }
  }

  lemma {:induction false} CollectsChild(s: seq<byte>, strings: seq<byte>, name: seq<byte>, pad: seq<byte>, body: Items, off: nat, acc: CollectedNode)
    requires WellFormedItem(strings, Node(name, pad, body)) && off % 4 == 0
    requires At(s, off, EncodeItem(strings, Node(name, pad, body)))
    ensures var child := Collect(s, strings, off + 5 + |name| + |pad|, EMPTY_NODE);
      && child.Done? && Reads(s, child.node, TreeOf(body))
      && Collect(s, strings, off, acc)
         == Collect(s, strings, off + |EncodeItem(strings, Node(name, pad, body))|, acc.AddChild(child.node))
    decreases body, 1
  {
    hide Collect;
    hide At;
    var start := off + 5 + |name| + |pad|;
    EntersNode(s, strings, name, pad, body, off);
    CollectUndoesEncode(s, strings, body, start, EMPTY_NODE, Tree([], []));
    assert Joined(Tree([], []), TreeOf(body)) == TreeOf(body);
    CollectsNode(s, strings, off, off + 4 + |name|, acc);
  }

  /** For every device tree and every encoding of it, whatever follows the root in the structure
      block, parsing rebuilds exactly that tree, without leaving the two blocks. */
  lemma ParseUndoesEncode(s: seq<byte>, strings: seq<byte>, name: seq<byte>, pad: seq<byte>, body: Items)
    requires WellFormedItem(strings, Node(name, pad, body))
    requires At(s, 0, EncodeItem(strings, Node(name, pad, body)))
    ensures var r := Parse(s, strings);
      && r.Done? && r.offset == |EncodeItem(strings, Node(name, pad, body))|
      && Reads(s, r.node, TreeOf(body))
  {
    hide Collect;
    hide At;
    var start := 5 + |name| + |pad|;
    EntersNode(s, strings, name, pad, body, 0);
    CollectUndoesEncode(s, strings, body, start, EMPTY_NODE, Tree([], []));
    assert Joined(Tree([], []), TreeOf(body)) == TreeOf(body);
  }

  function Nops(k: nat): seq<byte> {
    if k == 0 then [] else Be32(FDT_NOP) + Nops(k - 1)
  }

  /** The specification lets NOPs come before the root; the parser gives back the tree exactly when there
      are none, and otherwise says that the block is not a tree. */
  lemma LeadingNopsIff(s: seq<byte>, strings: seq<byte>, name: seq<byte>, pad: seq<byte>, body: Items, k: nat)
    requires WellFormedItem(strings, Node(name, pad, body))
    requires At(s, 0, Nops(k) + EncodeItem(strings, Node(name, pad, body)))
    ensures var r := Parse(s, strings);
      && (r.Done? && Reads(s, r.node, TreeOf(body)) <==> k == 0)
      && (k > 0 ==> r == NotATree)
  {
    hide Collect, WellFormedItem, U32At, Reads;
    var root := EncodeItem(strings, Node(name, pad, body));
    if k == 0 {
      assert Nops(0) + root == root;
      ParseUndoesEncode(s, strings, name, pad, body);
    } else {
      assert Nops(k) + root == Be32(FDT_NOP) + (Nops(k - 1) + root);
      AtSplit(s, 0, Be32(FDT_NOP), Nops(k - 1) + root);
      Be32RoundTrip(s, 0, FDT_NOP);
    }
  }

  // ---------------------------------------------------------------- the format in bytes

  /** The tokens spelled out: a NOP, the property b = 07 whose name is at offset 2, and an empty node "c". */
  lemma TokensSpelledOut()
    ensures EncodeItem([97, 0, 98, 0], Nop) == [0, 0, 0, 4]
    ensures WellFormedItem([97, 0, 98, 0], Prop([98], 2, [7], [0, 0, 0]))
    ensures EncodeItem([97, 0, 98, 0], Prop([98], 2, [7], [0, 0, 0])) == [0, 0, 0, 3, 0, 0, 0, 1, 0, 0, 0, 2, 7, 0, 0, 0]
    ensures WellFormedItem([], Node([99], [0, 0], EndNode))
    ensures EncodeItem([], Node([99], [0, 0], EndNode)) == [0, 0, 0, 1, 99, 0, 0, 0, 0, 0, 0, 2]
  {
    var strings: seq<byte> := [97, 0, 98, 0];
    assert strings[2..4] == [98] + [0];
  }

  /** The token that ends the whole block, 9, ends the node at hand as well. */
  lemma BlockEndStops(s: seq<byte>, strings: seq<byte>, off: nat, acc: CollectedNode)
    requires At(s, off, [0, 0, 0, 9])
    ensures Collect(s, strings, off, acc) == Done(acc, off + 4)
  {
    assert Be32(9) == [0, 0, 0, 9];
    Be32RoundTrip(s, off, 9);
  }
}

/** The pre-order pass over the collected device tree, as far as it builds the list of RAM regions:
    address and size cell counts are threaded from parent to child, and a node whose `device_type`
    is "memory" contributes the first entry of its `reg` property. */
module FdtMemory {
  import opened Bytes
  import opened Fdt

  datatype MemRegion = MemRegion(base: nat, size: nat)

  function Ascii(text: string): seq<byte>
    requires forall i | 0 <= i < |text| :: text[i] < 128 as char
  {
    seq(|text|, i requires 0 <= i < |text| => text[i] as int)
  }

  const ADDRESS_CELLS := Ascii("#address-cells")
  const SIZE_CELLS := Ascii("#size-cells")
  const DEVICE_TYPE := Ascii("device_type")
  const REG := Ascii("reg")
  const MEMORY := Ascii("memory")

  // ---------------------------------------------------------------- what one node contributes

  /** The count a node's properties leave in force: a later definition replaces an earlier one, and
      a value shorter than a word is ignored. */
  ghost function CellsOf(props: seq<Property>, name: seq<byte>, inherited: nat): nat {
    if props == [] then inherited
    else
      var last := props[|props| - 1];
      if last.name == name && |last.value| >= 4 then U32At(last.value, 0)
      else CellsOf(props[..|props| - 1], name, inherited)
  }

  ghost function FirstValue(props: seq<Property>, name: seq<byte>): Option<seq<byte>> {
    if props == [] then None
    else if props[0].name == name then Some(props[0].value)
    else FirstValue(props[1..], name)
  }

  /** A string value ends at its first zero byte, or with the value. */
  ghost function TextOf(value: seq<byte>): seq<byte> {
    match Nul(value, 0)
    case None => value
    case Some(k) => value[..k]
  }

  function ReadCells(v: seq<byte>, off: nat, cells: nat): nat
    requires cells <= 2 ==> off + 4 * cells <= |v|
  {
    if cells == 1 then U32At(v, off)
    else if cells == 2 then U32At(v, off) * TWO_32 + U32At(v, off + 4)
    else 0
  }

  function ParseReg(v: seq<byte>, ac: nat, sc: nat): (r: Option<MemRegion>)
    ensures r.Some? <==> 0 < 4 * (ac + sc) <= |v|
  {
    if |v| < 4 * (ac + sc) || ac + sc == 0 then None
    else Some(MemRegion(ReadCells(v, 0, ac), ReadCells(v, 4 * ac, sc)))
  }

  /** An address or size as the specification lays it out: big-endian words, the high one first. */
  ghost function CellBytes(n: nat, cells: nat): seq<byte>
    requires (cells == 0 && n == 0) || (cells == 1 && n < TWO_32) || (cells == 2 && n < TWO_32 * TWO_32)
  {
    if cells == 0 then [] else if cells == 1 then Be32(n) else Be32(n / TWO_32) + Be32(n % TWO_32)
  }

  lemma CellsRoundTrip(v: seq<byte>, off: nat, n: nat, cells: nat)
    requires (cells == 0 && n == 0) || (cells == 1 && n < TWO_32) || (cells == 2 && n < TWO_32 * TWO_32)
    requires At(v, off, CellBytes(n, cells))
    ensures off + 4 * cells <= |v| && ReadCells(v, off, cells) == n
  {
    hide U32At;
    if cells == 1 {
      Be32RoundTrip(v, off, n);
    } else if cells == 2 {
      AtSplit(v, off, Be32(n / TWO_32), Be32(n % TWO_32));
      Be32RoundTrip(v, off, n / TWO_32);
      Be32RoundTrip(v, off + 4, n % TWO_32);
    }
  }

  /** A `reg` value that starts with an encoded base and size is read as that region. */
  lemma RegRoundTrip(base: nat, ac: nat, size: nat, sc: nat, rest: seq<byte>)
    requires (ac == 0 && base == 0) || (ac == 1 && base < TWO_32) || (ac == 2 && base < TWO_32 * TWO_32)
    requires (sc == 0 && size == 0) || (sc == 1 && size < TWO_32) || (sc == 2 && size < TWO_32 * TWO_32)
    requires ac + sc > 0
    ensures ParseReg(CellBytes(base, ac) + CellBytes(size, sc) + rest, ac, sc) == Some(MemRegion(base, size))
  {
    hide ReadCells;
    var a, b := CellBytes(base, ac), CellBytes(size, sc);
    var v := a + b + rest;
    assert At(v, 0, a) by { assert v[0..|a|] == a; }
    assert At(v, |a|, b) by { assert v[|a|..|a| + |b|] == b; }
    CellsRoundTrip(v, 0, base, ac);
    CellsRoundTrip(v, 4 * ac, size, sc);
  }

  ghost function Contribution(node: Tree, ac: nat, sc: nat): seq<MemRegion> {
    var deviceType, reg := FirstValue(node.props, DEVICE_TYPE), FirstValue(node.props, REG);
    if deviceType.Some? && TextOf(deviceType.value) == MEMORY && reg.Some? && ParseReg(reg.value, ac, sc).Some?
    then [ParseReg(reg.value, ac, sc).value]
    else []
  }

  // ---------------------------------------------------------------- the threaded pass

  ghost function Threaded(node: Tree, ac: nat, sc: nat): seq<MemRegion>
    decreases node, 1
  {
    var ac', sc' := CellsOf(node.props, ADDRESS_CELLS, ac), CellsOf(node.props, SIZE_CELLS, sc);
    Contribution(node, ac', sc') + ThreadedAll(node, |node.children|, ac', sc')
  }

  ghost function ThreadedAll(node: Tree, n: nat, ac: nat, sc: nat): seq<MemRegion>
    requires n <= |node.children|
    decreases node, 0, n
  {
    if n == 0 then [] else ThreadedAll(node, n - 1, ac, sc) + Threaded(node.children[n - 1], ac, sc)
  }

  /** The object the pass fills in. */
  class FdtInfo {
    var memory: seq<MemRegion>

    constructor ()
      ensures memory == []
    {
      memory := [];
    }
  }

  method ValueOf(s: seq<byte>, p: RawProp, ghost q: Property) returns (v: seq<byte>)
    requires ReadsProp(s, p, q)
    ensures v == q.value
  {
    v := s[p.data..p.data + p.len];
  }

  method FindPropRaw(s: seq<byte>, node: CollectedNode, name: seq<byte>, ghost tree: Tree) returns (r: Option<seq<byte>>)
    requires Reads(s, node, tree)
    ensures r == FirstValue(tree.props, name)
  {
    for i := 0 to |node.props|
      invariant FirstValue(tree.props[i..], name) == FirstValue(tree.props, name)
    {
      assert ReadsProp(s, node.props[i], tree.props[i]);
      if node.props[i].name == name {
        var v := ValueOf(s, node.props[i], tree.props[i]);
        return Some(v);
      }
    }
    r := None;
  }

  method ReadStringFrom(v: seq<byte>) returns (text: seq<byte>)
    ensures text == TextOf(v)
  {
    text := [];
    for i := 0 to |v|
      invariant text == v[..i] && 0 !in v[..i]
      invariant Nul(v, i) == Nul(v, 0)
    {
      if v[i] == 0 { return; }
      text := text + [v[i]];
    }
  }

  method NodeCells(s: seq<byte>, node: CollectedNode, ac: nat, sc: nat, ghost tree: Tree) returns (ac': nat, sc': nat)
    requires Reads(s, node, tree)
    ensures ac' == CellsOf(tree.props, ADDRESS_CELLS, ac) && sc' == CellsOf(tree.props, SIZE_CELLS, sc)
  {
    ac', sc' := ac, sc;
    for i := 0 to |node.props|
      invariant ac' == CellsOf(tree.props[..i], ADDRESS_CELLS, ac)
      invariant sc' == CellsOf(tree.props[..i], SIZE_CELLS, sc)
    {
      assert ReadsProp(s, node.props[i], tree.props[i]);
      assert tree.props[..i + 1][..i] == tree.props[..i];
      assert ADDRESS_CELLS[1] != SIZE_CELLS[1];
      var v := ValueOf(s, node.props[i], tree.props[i]);
      if node.props[i].name == ADDRESS_CELLS && node.props[i].len >= 4 {
        ac' := U32At(v, 0);
      } else if node.props[i].name == SIZE_CELLS && node.props[i].len >= 4 {
        sc' := U32At(v, 0);
      }
    }
    assert tree.props[..|tree.props|] == tree.props;
  }

  method NodeRegion(s: seq<byte>, node: CollectedNode, ac: nat, sc: nat, ghost tree: Tree) returns (regions: seq<MemRegion>)
    requires Reads(s, node, tree)
    ensures regions == Contribution(tree, ac, sc)
  {
    regions := [];
    var deviceType := FindPropRaw(s, node, DEVICE_TYPE, tree);
    if deviceType.None? { return; }
    var text := ReadStringFrom(deviceType.value);
    var reg := FindPropRaw(s, node, REG, tree);
    if text == MEMORY && reg.Some? {
      var region := ParseReg(reg.value, ac, sc);
      if region.Some? {
        regions := [region.value];
      }
    }
  }

  /** The pass appends the regions of the subtree, in document order. */
  method ProcessTree(s: seq<byte>, node: CollectedNode, info: FdtInfo, ac: nat, sc: nat, ghost tree: Tree)
    requires Reads(s, node, tree)
    modifies info
    ensures info.memory == old(info.memory) + Threaded(tree, ac, sc)
    decreases node
  {
    hide Contribution;
    hide CellsOf;
    var ac', sc' := NodeCells(s, node, ac, sc, tree);
    var regions := NodeRegion(s, node, ac', sc', tree);
    info.memory := info.memory + regions;
    for i := 0 to |node.children|
      invariant info.memory == old(info.memory) + regions + ThreadedAll(tree, i, ac', sc')
    {
      ProcessTree(s, node.children[i], info, ac', sc', tree.children[i]);
    }
  }

  // ---------------------------------------------------------------- what the threading means

  /** The count in force for the last node of a path: the nearest enclosing definition, 2 by default. */
  ghost function Nearest(path: seq<Tree>, name: seq<byte>): nat {
    if path == [] then 2
    else CellsOf(path[|path| - 1].props, name, Nearest(path[..|path| - 1], name))
  }

  /** The regions of every node at or below `node`, in document order, each read with the counts that
      the path from the root puts in force. */
  ghost function Regions(path: seq<Tree>, node: Tree): seq<MemRegion>
    decreases node, 1
  {
    var here := path + [node];
    Contribution(node, Nearest(here, ADDRESS_CELLS), Nearest(here, SIZE_CELLS)) + RegionsBelow(path, node, |node.children|)
  }

  ghost function RegionsBelow(path: seq<Tree>, node: Tree, n: nat): seq<MemRegion>
    requires n <= |node.children|
    decreases node, 0, n
  {
    if n == 0 then [] else RegionsBelow(path, node, n - 1) + Regions(path + [node], node.children[n - 1])
  }

  lemma {:induction false} ThreadedIsNearest(path: seq<Tree>, node: Tree)
    ensures Threaded(node, Nearest(path, ADDRESS_CELLS), Nearest(path, SIZE_CELLS)) == Regions(path, node)
    decreases node, 1
  {
    assert (path + [node])[..|path|] == path;
    ThreadedBelowIsNearest(path, node, |node.children|);
  }

  lemma {:induction false} ThreadedBelowIsNearest(path: seq<Tree>, node: Tree, n: nat)
    requires n <= |node.children|
    ensures var here := path + [node];
      ThreadedAll(node, n, Nearest(here, ADDRESS_CELLS), Nearest(here, SIZE_CELLS)) == RegionsBelow(path, node, n)
    decreases node, 0, n
  {
    if n > 0 {
      ThreadedBelowIsNearest(path, node, n - 1);
      ThreadedIsNearest(path + [node], node.children[n - 1]);
    }
  }

  /** End to end: on every encoding of a device tree the parser succeeds and the list of RAM regions
      is that of the tree, by the code's rule for counts. */
  method ParseMemory(s: seq<byte>, strings: seq<byte>, ghost name: seq<byte>, ghost pad: seq<byte>, ghost body: Items) returns (info: FdtInfo)
    requires WellFormedItem(strings, Node(name, pad, body))
    requires At(s, 0, EncodeItem(strings, Node(name, pad, body)))
    ensures fresh(info)
    ensures info.memory == Regions([], TreeOf(body))
  {
    ParseUndoesEncode(s, strings, name, pad, body);
    var r := ParseBlocks(s, strings);
    info := new FdtInfo();
    ThreadedIsNearest([], TreeOf(body));
    ProcessTree(s, r.node, info, 2, 2, TreeOf(body));
  }

  // ---------------------------------------------------------------- what the specification asks

  /** All the pairs a `reg` value holds. */
  ghost function Pairs(v: seq<byte>, ac: nat, sc: nat): seq<MemRegion>
    decreases |v|
  {
    var first := ParseReg(v, ac, sc);
    if first.None? then [] else [first.value] + Pairs(v[4 * (ac + sc)..], ac, sc)
  }

  /** What the code takes of them. */
  ghost function FirstPair(v: seq<byte>, ac: nat, sc: nat): seq<MemRegion> {
    var first := ParseReg(v, ac, sc);
    if first.None? then [] else [first.value]
  }

  /** The specified count for a node below `path`: its parent's definition and nothing else. */
  ghost function SpecCells(path: seq<Tree>, name: seq<byte>, default: nat): nat {
    if path == [] then default else CellsOf(path[|path| - 1].props, name, default)
  }

  ghost predicate IsMemory(node: Tree) {
    var deviceType := FirstValue(node.props, DEVICE_TYPE);
    deviceType.Some? && TextOf(deviceType.value) == MEMORY && FirstValue(node.props, REG).Some?
  }

  ghost function SpecContribution(node: Tree, ac: nat, sc: nat): seq<MemRegion> {
    if IsMemory(node) then Pairs(FirstValue(node.props, REG).value, ac, sc) else []
  }

  /** The RAM regions by the Devicetree Specification v0.4, sections 2.3.5, 2.3.6 and 3.4: every pair of
      every memory node, read with its parent's counts, which are 2 and 1 unless defined. */
  ghost function SpecRegions(path: seq<Tree>, node: Tree): seq<MemRegion>
    decreases node, 1
  {
    SpecContribution(node, SpecCells(path, ADDRESS_CELLS, 2), SpecCells(path, SIZE_CELLS, 1))
    + SpecRegionsBelow(path, node, |node.children|)
  }

  ghost function SpecRegionsBelow(path: seq<Tree>, node: Tree, n: nat): seq<MemRegion>
    requires n <= |node.children|
    decreases node, 0, n
  {
    if n == 0 then [] else SpecRegionsBelow(path, node, n - 1) + SpecRegions(path + [node], node.children[n - 1])
  }

  ghost predicate Defines(node: Tree, name: seq<byte>) {
    exists i | 0 <= i < |node.props| :: node.props[i].name == name && |node.props[i].value| >= 4
  }

  lemma {:induction false} CellsOfDefined(props: seq<Property>, name: seq<byte>, inherited: nat)
    ensures CellsOf(props, name, inherited)
      == if Defines(Tree(props, []), name) then CellsOf(props, name, 0) else inherited
  {
    if props != [] {
      var n := |props| - 1;
      var front, all := Tree(props[..n], []), Tree(props, []);
      CellsOfDefined(props[..n], name, inherited);
      CellsOfDefined(props[..n], name, 0);
      if props[n].name == name && |props[n].value| >= 4 {
        assert all.props[n] == props[n];
      }
      if Defines(front, name) {
        var i :| 0 <= i < n && front.props[i].name == name && |front.props[i].value| >= 4;
        assert all.props[i] == front.props[i];
      }
      if Defines(all, name) && !(props[n].name == name && |props[n].value| >= 4) {
        var i :| 0 <= i <= n && all.props[i].name == name && |all.props[i].value| >= 4;
        assert front.props[i] == all.props[i];
      }
    }
  }

  /** When the code's count for `node` is the specified one, as a look at the node, its parent and what
      lies above shows: a definition of its own must say the same; without one, the parent must have
      one, or the counts further up must come down to the default. */
  ghost predicate CountSpecified(path: seq<Tree>, node: Tree, name: seq<byte>, default: nat) {
    if Defines(node, name) then CellsOf(node.props, name, 0) == SpecCells(path, name, default)
    else if path == [] then default == 2
    else Defines(path[|path| - 1], name) || Nearest(path[..|path| - 1], name) == default
  }

  lemma CountSpecifiedIff(path: seq<Tree>, node: Tree, name: seq<byte>, default: nat)
    ensures Nearest(path + [node], name) == SpecCells(path, name, default) <==> CountSpecified(path, node, name, default)
  {
    hide CellsOf;
    assert (path + [node])[..|path|] == path;
    SameDefinitions(node, name);
    CellsOfDefined(node.props, name, Nearest(path, name));
    if path != [] {
      var parent := path[|path| - 1];
      SameDefinitions(parent, name);
      CellsOfDefined(parent.props, name, Nearest(path[..|path| - 1], name));
      CellsOfDefined(parent.props, name, default);
    }
  }

  lemma SameDefinitions(node: Tree, name: seq<byte>)
    ensures Defines(node, name) == Defines(Tree(node.props, []), name)
  {
    var bare := Tree(node.props, []);
    assert forall i | 0 <= i < |node.props| :: node.props[i] == bare.props[i];
  }

  /** Taking the first pair only is enough exactly when there is no second one. */
  lemma FirstPairIff(v: seq<byte>, ac: nat, sc: nat)
    ensures FirstPair(v, ac, sc) == Pairs(v, ac, sc) <==> |Pairs(v, ac, sc)| <= 1
  {
  }

  lemma {:induction false} OnesAt(v: seq<byte>, off: nat)
    requires off + 4 <= |v| && forall i | 0 <= i < |v| :: v[i] == 1
    ensures U32At(v, off) == 0x0101_0101
  {
  }

  /** For counts up to 2, a `reg` with at most one specified pair is read as specified, whatever it
      holds, exactly when both counts are the specified ones. */
  lemma CountsMatterIff(ac: nat, sc: nat, ac': nat, sc': nat)
    requires ac <= 2 && sc <= 2 && ac' <= 2 && sc' <= 2
    ensures (forall v: seq<byte> | |Pairs(v, ac', sc')| <= 1 :: FirstPair(v, ac, sc) == Pairs(v, ac', sc')) <==> ac == ac' && sc == sc'
  {
    if ac == ac' && sc == sc' {
      forall v: seq<byte> | |Pairs(v, ac', sc')| <= 1 ensures FirstPair(v, ac, sc) == Pairs(v, ac', sc') { FirstPairIff(v, ac, sc); }
    } else {
      var n := if 0 < ac + sc < ac' + sc' || ac' + sc' == 0 then ac + sc else ac' + sc';
      var v: seq<byte> := seq(4 * n, i => 1);
      assert |v| == 4 * n && forall i | 0 <= i < |v| :: v[i] == 1;
      AtMostOnePair(v, ac', sc');
      forall off | 0 <= off <= |v| - 4 ensures U32At(v, off) == 0x0101_0101 { OnesAt(v, off); }
      assert FirstPair(v, ac, sc) != Pairs(v, ac', sc');
    }
  }

  lemma AtMostOnePair(v: seq<byte>, ac: nat, sc: nat)
    requires |v| <= 4 * (ac + sc) || ac + sc == 0
    ensures Pairs(v, ac, sc) == FirstPair(v, ac, sc)
  {
    if ac + sc > 0 && |v| == 4 * (ac + sc) {
      assert Pairs(v[4 * (ac + sc)..], ac, sc) == [];
    }
  }

  /** Every memory node at or below `node` has the specified counts and at most one pair. */
  ghost predicate AllSpecified(path: seq<Tree>, node: Tree)
    decreases node, 1
  {
    && (IsMemory(node) ==>
          && CountSpecified(path, node, ADDRESS_CELLS, 2) && CountSpecified(path, node, SIZE_CELLS, 1)
          && |Pairs(FirstValue(node.props, REG).value, SpecCells(path, ADDRESS_CELLS, 2), SpecCells(path, SIZE_CELLS, 1))| <= 1)
    && forall i | 0 <= i < |node.children| :: AllSpecified(path + [node], node.children[i])
  }

  /** On such trees the code's regions are the specified ones. */
  lemma {:induction false} RegionsAsSpecified(path: seq<Tree>, node: Tree)
    requires AllSpecified(path, node)
    ensures Regions(path, node) == SpecRegions(path, node)
    decreases node, 1
  {
    hide Nearest, SpecCells, CountSpecified, Pairs, ParseReg;
    CountSpecifiedIff(path, node, ADDRESS_CELLS, 2);
    CountSpecifiedIff(path, node, SIZE_CELLS, 1);
    if IsMemory(node) {
      FirstPairIff(FirstValue(node.props, REG).value, SpecCells(path, ADDRESS_CELLS, 2), SpecCells(path, SIZE_CELLS, 1));
    }
    RegionsBelowAsSpecified(path, node, |node.children|);
  }

  lemma {:induction false} RegionsBelowAsSpecified(path: seq<Tree>, node: Tree, n: nat)
    requires n <= |node.children| && forall i | 0 <= i < n :: AllSpecified(path + [node], node.children[i])
    ensures RegionsBelow(path, node, n) == SpecRegionsBelow(path, node, n)
    decreases node, 0, n
  {
    if n > 0 {
      RegionsBelowAsSpecified(path, node, n - 1);
      RegionsAsSpecified(path + [node], node.children[n - 1]);
    }
  }

  // ---------------------------------------------------------------- trees on which the two differ

  ghost function MemoryNode(reg: seq<byte>): Tree {
    Tree([Property(Ascii("device_type"), Ascii("memory") + [0]), Property(Ascii("reg"), reg)], [])
  }

  lemma MemoryNodeIsMemory(reg: seq<byte>)
    ensures IsMemory(MemoryNode(reg)) && FirstValue(MemoryNode(reg).props, REG) == Some(reg)
    ensures !Defines(MemoryNode(reg), ADDRESS_CELLS) && !Defines(MemoryNode(reg), SIZE_CELLS)
  {
    var props := MemoryNode(reg).props;
    assert |DEVICE_TYPE| == 11 && |REG| == 3 && |ADDRESS_CELLS| == 14 && |SIZE_CELLS| == 11 && DEVICE_TYPE[0] != SIZE_CELLS[0];
    assert props[1..] == [props[1]];
    assert FirstValue(props[1..], REG) == Some(reg);
    assert forall i | 0 <= i < |MEMORY| :: MEMORY[i] != 0;
    var text := MEMORY + [0];
    assert text[|MEMORY|] == 0 && forall i | 0 <= i < |MEMORY| :: text[i] == MEMORY[i];
    assert 0 in text[0..];
    assert Nul(text, 0) == Some(|MEMORY|);
  }

  /** A root without counts over a memory node with one specified pair of twelve bytes: the code, which
      takes the size for two cells, finds no memory. */
  lemma DefaultSizeDiffers(base: nat, size: nat)
    requires base < TWO_32 * TWO_32 && size < TWO_32
    ensures var t := Tree([], [MemoryNode(CellBytes(base, 2) + CellBytes(size, 1))]);
      Regions([], t) == [] && SpecRegions([], t) == [MemRegion(base, size)]
  {
    hide Regions, SpecRegions, ParseReg, Pairs;
    var reg := CellBytes(base, 2) + CellBytes(size, 1);
    OneChild(reg);
    RegRoundTrip(base, 2, size, 1, []);
    assert reg + [] == reg && |reg| == 12;
    TooShort(reg, 2, 2);
    AtMostOnePair(reg, 2, 1);
  }

  lemma TooShort(v: seq<byte>, ac: nat, sc: nat)
    requires |v| < 4 * (ac + sc)
    ensures FirstPair(v, ac, sc) == []
  {
  }

  lemma LeafRegions(path: seq<Tree>, reg: seq<byte>)
    ensures Regions(path, MemoryNode(reg)) == FirstPair(reg, Nearest(path, ADDRESS_CELLS), Nearest(path, SIZE_CELLS))
    ensures SpecRegions(path, MemoryNode(reg)) == Pairs(reg, SpecCells(path, ADDRESS_CELLS, 2), SpecCells(path, SIZE_CELLS, 1))
  {
    hide ParseReg, Pairs, CellsOf, Nul;
    var node := MemoryNode(reg);
    MemoryNodeIsMemory(reg);
    SameDefinitions(node, ADDRESS_CELLS);
    SameDefinitions(node, SIZE_CELLS);
    assert (path + [node])[..|path|] == path;
    CellsOfDefined(node.props, ADDRESS_CELLS, Nearest(path, ADDRESS_CELLS));
    CellsOfDefined(node.props, SIZE_CELLS, Nearest(path, SIZE_CELLS));
    assert RegionsBelow(path, node, 0) == [] && SpecRegionsBelow(path, node, 0) == [];
  }

  /** The regions of a tree with one memory node under a root without counts. */
  lemma OneChild(reg: seq<byte>)
    ensures var t := Tree([], [MemoryNode(reg)]); Regions([], t) == FirstPair(reg, 2, 2) && SpecRegions([], t) == Pairs(reg, 2, 1)
  {
    hide IsMemory, ParseReg, Pairs;
    var node := MemoryNode(reg);
    var t := Tree([], [node]);
    LeafRegions([t], reg);
    assert [t][..0] == [] && [] + [t] == [t];
    assert Nearest([t], ADDRESS_CELLS) == 2 && Nearest([t], SIZE_CELLS) == 2;
    assert RegionsBelow([], t, 0) == [] && SpecRegionsBelow([], t, 0) == [];
    assert RegionsBelow([], t, 1) == Regions([t], node) && SpecRegionsBelow([], t, 1) == SpecRegions([t], node);
    assert FirstValue(t.props, DEVICE_TYPE) == None;
    assert !IsMemory(t) by { NothingIsMemory(t); }
  }

  lemma NothingIsMemory(t: Tree)
    requires t.props == []
    ensures !IsMemory(t)
  {
  }

  /** Of a `reg` that lists two banks the code takes the first. */
  lemma SecondPairIsLost(base: nat, size: nat, base2: nat, size2: nat)
    requires base < TWO_32 * TWO_32 && size < TWO_32 * TWO_32 && base2 < TWO_32 * TWO_32 && size2 < TWO_32 * TWO_32
    ensures var reg := CellBytes(base, 2) + CellBytes(size, 2) + (CellBytes(base2, 2) + CellBytes(size2, 2));
      FirstPair(reg, 2, 2) == [MemRegion(base, size)] && Pairs(reg, 2, 2) == [MemRegion(base, size), MemRegion(base2, size2)]
  {
    hide ParseReg;
    var second := CellBytes(base2, 2) + CellBytes(size2, 2);
    var reg := CellBytes(base, 2) + CellBytes(size, 2) + second;
    RegRoundTrip(base, 2, size, 2, second);
    RegRoundTrip(base2, 2, size2, 2, []);
    assert second + [] == second && reg[16..] == second && |second| == 16;
    AtMostOnePair(second, 2, 2);
  }

  // ---------------------------------------------------------------- what the lookups find

  ghost predicate Lacks(props: seq<Property>, name: seq<byte>) {
    forall i | 0 <= i < |props| :: props[i].name != name
  }

  /** A count is the big-endian word of the last definition. */
  lemma {:induction false} LastDefinitionCounts(front: seq<Property>, name: seq<byte>, n: nat, back: seq<Property>, inherited: nat)
    requires n < TWO_32 && Lacks(back, name)
    ensures CellsOf(front + [Property(name, Be32(n))] + back, name, inherited) == n
    decreases |back|
  {
    var defined := front + [Property(name, Be32(n))];
    if back == [] {
      assert defined + back == defined;
      assert At(Be32(n), 0, Be32(n));
      Be32RoundTrip(Be32(n), 0, n);
    } else {
      var m := |back| - 1;
      LastDefinitionCounts(front, name, n, back[..m], inherited);
      assert defined + back == defined + back[..m] + [back[m]];
    }
  }

  /** A lookup finds the first property of the name, and nothing when there is none. */
  lemma {:induction false} FirstValueIsFirst(front: seq<Property>, name: seq<byte>, value: seq<byte>, back: seq<Property>)
    requires Lacks(front, name)
    ensures FirstValue(front + [Property(name, value)] + back, name) == Some(value) && FirstValue(front, name) == None
    decreases |front|
  {
    var all := front + [Property(name, value)] + back;
    if front != [] {
      FirstValueIsFirst(front[1..], name, value, back);
      assert all[1..] == front[1..] + [Property(name, value)] + back;
    }
  }

  /** A string is what comes before its first zero byte. */
  lemma TextEndsAtZero(text: seq<byte>, rest: seq<byte>)
    requires 0 !in text
    ensures TextOf(text + [0] + rest) == text && TextOf(text) == text
  {
    var value := text + [0] + rest;
    AtSplit(value, 0, text + [0], rest);
    NulAfterName(value, 0, text);
    assert text[0..] == text;
    assert Nul(text, 0).None?;
  }

  ghost predicate FitsCells(n: nat, cells: nat) {
    (cells == 1 && n < TWO_32) || (cells == 2 && n < TWO_32 * TWO_32)
  }

  ghost predicate BankFits(bank: MemRegion, ac: nat, sc: nat) { FitsCells(bank.base, ac) && FitsCells(bank.size, sc) }

  ghost function BankReg(bank: MemRegion, ac: nat, sc: nat): seq<byte>
    requires BankFits(bank, ac, sc)
  {
    CellBytes(bank.base, ac) + CellBytes(bank.size, sc)
  }

  /** A root that defines its counts over any number of memory nodes, one bank each. */
  ghost function BankedRoot(ac: nat, sc: nat, banks: seq<MemRegion>): Tree
    requires ac <= 2 && sc <= 2
    requires forall i | 0 <= i < |banks| :: BankFits(banks[i], ac, sc)
  {
    Tree([Property(ADDRESS_CELLS, Be32(ac)), Property(SIZE_CELLS, Be32(sc))],
         seq(|banks|, i requires 0 <= i < |banks| => MemoryNode(BankReg(banks[i], ac, sc))))
  }

  lemma RootCounts(ac: nat, sc: nat, banks: seq<MemRegion>)
    requires ac <= 2 && sc <= 2
    requires forall i | 0 <= i < |banks| :: BankFits(banks[i], ac, sc)
    ensures var t := BankedRoot(ac, sc, banks);
      && Nearest([t], ADDRESS_CELLS) == ac && Nearest([t], SIZE_CELLS) == sc
      && SpecCells([t], ADDRESS_CELLS, 2) == ac && SpecCells([t], SIZE_CELLS, 1) == sc
      && FirstValue(t.props, DEVICE_TYPE) == None
  {
    hide CellsOf;
    var t := BankedRoot(ac, sc, banks);
    var a, b := Property(ADDRESS_CELLS, Be32(ac)), Property(SIZE_CELLS, Be32(sc));
    assert |DEVICE_TYPE| == 11 && |ADDRESS_CELLS| == 14 && |SIZE_CELLS| == 11 && DEVICE_TYPE[0] != SIZE_CELLS[0];
    assert t.props == [] + [a] + [b] && t.props == [a] + [b] + [];
    forall inherited: nat ensures CellsOf(t.props, ADDRESS_CELLS, inherited) == ac && CellsOf(t.props, SIZE_CELLS, inherited) == sc {
      LastDefinitionCounts([], ADDRESS_CELLS, ac, [b], inherited);
      LastDefinitionCounts([a], SIZE_CELLS, sc, [], inherited);
    }
    FirstValueIsFirst(t.props, DEVICE_TYPE, [], []);
    assert [t][..0] == [];
  }

  /** The RAM list of such a tree is its banks, in order, by the code's rule and by the specification's. */
  lemma BanksAreFound(ac: nat, sc: nat, banks: seq<MemRegion>)
    requires ac <= 2 && sc <= 2
    requires forall i | 0 <= i < |banks| :: BankFits(banks[i], ac, sc)
    ensures var t := BankedRoot(ac, sc, banks); Regions([], t) == banks && SpecRegions([], t) == banks
  {
    var t := BankedRoot(ac, sc, banks);
    RootCounts(ac, sc, banks);
    BanksBelow(ac, sc, banks, |banks|);
    hide CellsOf, Nearest, SpecCells, FirstValue, RegionsBelow, SpecRegionsBelow, ParseReg;
    assert banks[..|banks|] == banks;
  }

  lemma {:induction false} BanksBelow(ac: nat, sc: nat, banks: seq<MemRegion>, n: nat)
    requires ac <= 2 && sc <= 2 && n <= |banks|
    requires forall i | 0 <= i < |banks| :: BankFits(banks[i], ac, sc)
    ensures var t := BankedRoot(ac, sc, banks); RegionsBelow([], t, n) == banks[..n] && SpecRegionsBelow([], t, n) == banks[..n]
  {
    hide CellsOf, Nearest, SpecCells, FirstValue, Regions, SpecRegions, ParseReg, Pairs, BankReg;
    if n > 0 {
      var t, bank := BankedRoot(ac, sc, banks), banks[n - 1];
      BanksBelow(ac, sc, banks, n - 1);
      RootCounts(ac, sc, banks);
      assert [] + [t] == [t];
      LeafRegions([t], BankReg(bank, ac, sc));
      OneBank(bank, ac, sc);
      assert banks[..n] == banks[..n - 1] + [bank];
    }
  }

  lemma OneBank(bank: MemRegion, ac: nat, sc: nat)
    requires ac <= 2 && sc <= 2 && BankFits(bank, ac, sc)
    ensures var reg := BankReg(bank, ac, sc);
      FirstPair(reg, ac, sc) == [bank] && Pairs(reg, ac, sc) == [bank]
  {
    hide ParseReg, Pairs;
    var reg := BankReg(bank, ac, sc);
    RegRoundTrip(bank.base, ac, bank.size, sc, []);
    assert reg + [] == reg;
    AtMostOnePair(reg, ac, sc);
  }
}

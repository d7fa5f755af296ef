/**
  Structure blocks with FDT_NOP tokens wherever sections 5.4.1 and 5.4.2 of the Devicetree Specification v0.4
  allow them, written word by word, and what the parser of module `Fdt` makes of them.
 */
module FdtNops {
  import opened MachineWords
  import opened Fdt

  /** A property behind a number of FDT_NOP tokens. */
  datatype Spread = Spread(nops: nat, property: Property)

  /** A node: FDT_NOP tokens in front of it and in front of its end. */
  datatype Spaced = Spaced(lead: nat, name: seq<Byte>, properties: seq<Spread>, children: seq<Spaced>, close: nat)

  /** A 32-bit word, the highest byte first. */
  function Word32(x: U32): (r: seq<Byte>)
    ensures |r| == 4
  {
    [x / 0x100_0000, x / 0x1_0000 % 0x100, x / 0x100 % 0x100, x % 0x100]
  }

  function Nops(n: nat): (r: seq<Byte>)
    ensures |r| == 4 * n
  {
    if n == 0 then [] else [0, 0, 0, 4] + Nops(n - 1)
  }

  /** `s` filled up with zeros to whole words. */
  function Filled(s: seq<Byte>): seq<Byte> {
    s + seq((4 - |s| % 4) % 4, _ => 0)
  }

  function PropertiesOf(ps: seq<Spread>): (r: seq<Property>)
    ensures |r| == |ps| && forall i | 0 <= i < |r| :: r[i] == ps[i].property
  {
    seq(|ps|, i requires 0 <= i < |ps| => ps[i].property)
  }

  /** The tree without its FDT_NOP tokens. */
  ghost function TreeOf(s: Spaced): Node
    decreases s
  {
    Node(s.name, PropertiesOf(s.properties), TreesOf(s.children))
  }

  ghost function TreesOf(cs: seq<Spaced>): (r: seq<Node>)
    ensures |r| == |cs| && forall i | 0 <= i < |r| :: r[i] == TreeOf(cs[i])
    decreases cs
  {
    if cs == [] then [] else [TreeOf(cs[0])] + TreesOf(cs[1..])
  }

  function PropertyBlock(p: Property, names: map<seq<Byte>, U32>): seq<Byte>
    requires p.name in names && |p.value| < 0x1_0000_0000
  {
    [0, 0, 0, 3] + Word32(|p.value|) + Word32(names[p.name]) + Filled(p.value)
  }

  function PropertyBlocks(ps: seq<Spread>, names: map<seq<Byte>, U32>): seq<Byte>
    requires forall i | 0 <= i < |ps| :: ps[i].property.name in names && |ps[i].property.value| < 0x1_0000_0000
    decreases |ps|
  {
    if ps == [] then []
    else Nops(ps[0].nops) + (PropertyBlock(ps[0].property, names) + PropertyBlocks(ps[1..], names))
  }

  /** A node from its FDT_BEGIN_NODE token to its FDT_END_NODE token. */
  ghost function NodeBlock(s: Spaced, names: map<seq<Byte>, U32>): seq<Byte>
    requires Printable(TreeOf(s), names)
    decreases s, 1
  {
    [0, 0, 0, 1] + (Filled(s.name + [0]) + (PropertyBlocks(s.properties, names)
       + (NodeBlocks(s.children, names) + (Nops(s.close) + [0, 0, 0, 2]))))
  }

  ghost function NodeBlocks(cs: seq<Spaced>, names: map<seq<Byte>, U32>): seq<Byte>
    requires forall i | 0 <= i < |cs| :: Printable(TreeOf(cs[i]), names)
    decreases cs
  {
    if cs == [] then []
    else Nops(cs[0].lead) + (NodeBlock(cs[0], names) + NodeBlocks(cs[1..], names))
  }

  // ----- words -----

  lemma {:induction false} WordRead(bytes: seq<Byte>, p: nat, x: U32)
    requires At(bytes, p, Word32(x))
    ensures WordAt(bytes, p) == Some(x)
  {
    var s := bytes[p..p + 4];
    assert s[0] == bytes[p] && s[1] == bytes[p + 1] && s[2] == bytes[p + 2] && s[3] == bytes[p + 3];
    FourBytes(x);
  }

  /** A token: a word with a small number. */
  lemma {:induction false} TokenRead(bytes: seq<Byte>, p: nat, w: Byte)
    requires At(bytes, p, [0, 0, 0, w])
    ensures WordAt(bytes, p) == Some(w)
  {
    var s := bytes[p..p + 4];
    assert s[0] == bytes[p] && s[1] == bytes[p + 1] && s[2] == bytes[p + 2] && s[3] == bytes[p + 3];
  }

  lemma WordIs(x: U32)
    ensures Word32(x) == Be32(x)
  {
    Shifts(x);
  }

  lemma Shifts(x: U32)
    ensures x / 0x100 / 0x100 == x / 0x1_0000 && x / 0x100 / 0x100 / 0x100 == x / 0x100_0000
  {
  }

  lemma FilledIs(s: seq<Byte>)
    ensures Filled(s) == Padded(s)
  {
    assert RoundUp(|s|) - |s| == (4 - |s| % 4) % 4;
  }

  lemma {:induction false} BlockIs(p: Property, names: map<seq<Byte>, U32>)
    requires p.name in names && |p.value| < 0x1_0000_0000
    ensures PropertyBlock(p, names) == PrintProperty(p, names)
  {
    WordIs(3);
    WordIs(|p.value|);
    WordIs(names[p.name]);
    FilledIs(p.value);
    Three();
    hide Word32, Be32, Filled, Padded, RoundUp;
  }

  lemma Three()
    ensures Word32(3) == [0, 0, 0, 3]
  {
  }

  // ----- FDT_NOP tokens -----

  lemma OnNop(b: Blob, limit: nat, entry: nat, node: Node, p: nat)
    requires b.Fits() && entry < p < limit && WordAt(b.bytes, p) == Some(4)
    ensures Loop(b, limit, entry, NodeName, node, p) == Loop(b, limit, entry, NodeName, node, p + 4)
  {
  }

  lemma {:induction false} NopsSkipped(b: Blob, limit: nat, entry: nat, node: Node, p: nat, n: nat)
    requires b.Fits() && entry < p && p + 4 * n <= limit && At(b.bytes, p, Nops(n))
    ensures Loop(b, limit, entry, NodeName, node, p) == Loop(b, limit, entry, NodeName, node, p + 4 * n)
    decreases n
  {
    hide Loop, At, WordAt, Blob.Fits;
    if n > 0 {
      AtParts(b.bytes, p, [0, 0, 0, 4], Nops(n - 1));
      TokenRead(b.bytes, p, 4);
      OnNop(b, limit, entry, node, p);
      NopsSkipped(b, limit, entry, node, p + 4, n - 1);
    }
  }

  // ----- properties -----

  lemma {:induction false} OneProperty(b: Blob, limit: nat, entry: nat, node: Node, p: nat, prop: Property,
                                       names: map<seq<Byte>, U32>)
    requires b.Placed() && StringsHold(b, names) && entry < p && WholeWords(p)
    requires prop.name in names && |prop.value| < 0x1_0000_0000 && At(b.bytes, p, PropertyBlock(prop, names))
    requires p + 4 < limit && b.Near(p + |PropertyBlock(prop, names)|)
    ensures WholeWords(p + |PropertyBlock(prop, names)|)
    ensures Loop(b, limit, entry, NodeName, node, p) ==
            Loop(b, limit, entry, NodeName, node.(properties := node.properties + [prop]),
                 p + |PropertyBlock(prop, names)|)
  {
    hide *;
    PlacedFits(b);
    BlockIs(prop, names);
    NameHeld(b, names, prop.name);
    PropertyPrinted(b, p, prop, names);
    PropertyPlace(p, |prop.value|);
    OnProp(b, limit, entry, node, p, prop);
    AlignedIs(b, p + 12 + |prop.value|);
    WordsAdd(p, |PrintProperty(prop, names)|);
  }

  lemma PropertyBlocksAre(ps: seq<Spread>, names: map<seq<Byte>, U32>)
    requires forall i | 0 <= i < |ps| :: ps[i].property.name in names && |ps[i].property.value| < 0x1_0000_0000
    ensures PropertyBlocks(ps, names)
         == if ps == [] then []
            else Nops(ps[0].nops) + (PropertyBlock(ps[0].property, names) + PropertyBlocks(ps[1..], names))
    ensures ps != [] ==> |PropertyBlock(ps[0].property, names)| >= 12
  {
    hide Nops;
  }

  lemma {:induction false} BlocksWhole(ps: seq<Spread>, names: map<seq<Byte>, U32>)
    requires forall i | 0 <= i < |ps| :: ps[i].property.name in names && |ps[i].property.value| < 0x1_0000_0000
    ensures WholeWords(|PropertyBlocks(ps, names)|)
    decreases |ps|
  {
    hide *;
    PropertyBlocksAre(ps, names);
    WordsAdd(0, 0);
    if ps != [] {
      BlocksWhole(ps[1..], names);
      BlockIs(ps[0].property, names);
      WordsAdd(|PropertyBlock(ps[0].property, names)|, |PropertyBlocks(ps[1..], names)|);
      NopsWhole(|PropertyBlock(ps[0].property, names)| + |PropertyBlocks(ps[1..], names)|, ps[0].nops);
    }
  }

  lemma PropertiesMove(before: seq<Property>, ps: seq<Spread>)
    ensures ps == [] ==> before + PropertiesOf(ps) == before
    ensures ps != [] ==> before + [ps[0].property] + PropertiesOf(ps[1..]) == before + PropertiesOf(ps)
  {
  }

  /** Properties are read back in order, whatever FDT_NOP tokens stand between them. */
  lemma {:induction false} SpreadParses(b: Blob, limit: nat, entry: nat, node: Node, p: nat, ps: seq<Spread>,
                                        names: map<seq<Byte>, U32>)
    requires b.Placed() && StringsHold(b, names) && entry < p && WholeWords(p)
    requires forall i | 0 <= i < |ps| :: ps[i].property.name in names && |ps[i].property.value| < 0x1_0000_0000
    requires At(b.bytes, p, PropertyBlocks(ps, names))
    requires p + |PropertyBlocks(ps, names)| <= limit && b.Near(p + |PropertyBlocks(ps, names)|)
    ensures Loop(b, limit, entry, NodeName, node, p) ==
            Loop(b, limit, entry, NodeName, node.(properties := node.properties + PropertiesOf(ps)),
                 p + |PropertyBlocks(ps, names)|)
    decreases |ps|
  {
    hide *;
    PlacedFits(b);
    PropertyBlocksAre(ps, names);
    PropertiesMove(node.properties, ps);
    if ps != [] {
      var n, block, rest := ps[0].nops, PropertyBlock(ps[0].property, names), PropertyBlocks(ps[1..], names);
      AtParts(b.bytes, p, Nops(n), block + rest);
      AtParts(b.bytes, p + 4 * n, block, rest);
      NopsSkipped(b, limit, entry, node, p, n);
      NopsWhole(p, n);
      var q := p + 4 * n + |block|;
      NearBelow(b, q, p + |PropertyBlocks(ps, names)|);
      OneProperty(b, limit, entry, node, p + 4 * n, ps[0].property, names);
      SpreadParses(b, limit, entry, node.(properties := node.properties + [ps[0].property]), q, ps[1..], names);
    }
  }

  lemma NopsWhole(p: nat, n: nat)
    requires WholeWords(p)
    ensures WholeWords(p + 4 * n)
  {
  }

  // ----- nodes -----

  /** A node that ends in `last` instead of an FDT_END_NODE token. */
  ghost function NodeWith(s: Spaced, names: map<seq<Byte>, U32>, last: seq<Byte>): seq<Byte>
    requires Printable(TreeOf(s), names)
  {
    NodeBlockIs(s, names);
    [0, 0, 0, 1] + (Filled(s.name + [0]) + (PropertyBlocks(s.properties, names)
       + (NodeBlocks(s.children, names) + (Nops(s.close) + last))))
  }

  lemma NodeWithIs(s: Spaced, names: map<seq<Byte>, U32>, last: seq<Byte>)
    requires Printable(TreeOf(s), names)
    ensures TreeOf(s) == Node(s.name, PropertiesOf(s.properties), TreesOf(s.children)) && 0 !in s.name
    ensures forall i | 0 <= i < |s.properties| ::
              s.properties[i].property.name in names && |s.properties[i].property.value| < 0x1_0000_0000
    ensures forall i | 0 <= i < |s.children| :: Printable(TreeOf(s.children[i]), names)
    ensures NodeWith(s, names, last)
         == [0, 0, 0, 1] + (Filled(s.name + [0]) + (PropertyBlocks(s.properties, names)
              + (NodeBlocks(s.children, names) + (Nops(s.close) + last))))
  {
    NodeBlockIs(s, names);
    hide Filled, Nops, TreeOf, NodeBlocks, PropertyBlocks, Printable;
  }

  lemma NodeBlockIs(s: Spaced, names: map<seq<Byte>, U32>)
    requires Printable(TreeOf(s), names)
    ensures TreeOf(s) == Node(s.name, PropertiesOf(s.properties), TreesOf(s.children)) && 0 !in s.name
    ensures forall i | 0 <= i < |s.properties| ::
              s.properties[i].property.name in names && |s.properties[i].property.value| < 0x1_0000_0000
    ensures forall i | 0 <= i < |s.children| :: Printable(TreeOf(s.children[i]), names)
    ensures NodeBlock(s, names)
         == [0, 0, 0, 1] + (Filled(s.name + [0]) + (PropertyBlocks(s.properties, names)
              + (NodeBlocks(s.children, names) + (Nops(s.close) + [0, 0, 0, 2]))))
  {
    forall i | 0 <= i < |s.properties|
      ensures s.properties[i].property.name in names && |s.properties[i].property.value| < 0x1_0000_0000
    {
      assert PropertiesOf(s.properties)[i] == s.properties[i].property;
    }
    forall i | 0 <= i < |s.children|
      ensures Printable(TreeOf(s.children[i]), names)
    {
      assert TreesOf(s.children)[i] == TreeOf(s.children[i]);
    }
    hide Filled, Nops;
  }

  lemma NodeBlocksAre(cs: seq<Spaced>, names: map<seq<Byte>, U32>)
    requires forall i | 0 <= i < |cs| :: Printable(TreeOf(cs[i]), names)
    ensures NodeBlocks(cs, names)
         == if cs == [] then [] else Nops(cs[0].lead) + (NodeBlock(cs[0], names) + NodeBlocks(cs[1..], names))
  {
    hide Nops, NodeBlock;
  }

  lemma TreesMove(before: seq<Node>, cs: seq<Spaced>)
    ensures cs == [] ==> before + TreesOf(cs) == before
    ensures cs != [] ==> before + [TreeOf(cs[0])] + TreesOf(cs[1..]) == before + TreesOf(cs)
  {
    hide TreeOf;
  }

  /** The parts of a node, and where they stand. */
  lemma {:induction false} PartsAt(bytes: seq<Byte>, entry: nat, all: seq<Byte>, name: seq<Byte>, ps: seq<Byte>,
                                   cs: seq<Byte>, close: nat, last: seq<Byte>)
    requires all == [0, 0, 0, 1] + (name + (ps + (cs + (Nops(close) + last)))) && |last| == 4 && At(bytes, entry, all)
    ensures WordAt(bytes, entry) == Some(1)
    ensures At(bytes, entry + 4, name) && At(bytes, entry + 4 + |name|, ps) && At(bytes, entry + 4 + |name| + |ps|, cs)
    ensures At(bytes, entry + 4 + |name| + |ps| + |cs|, Nops(close))
    ensures At(bytes, entry + 4 + |name| + |ps| + |cs| + 4 * close, last)
    ensures |all| == 8 + |name| + |ps| + |cs| + 4 * close
  {
    hide *;
    FiveParts(bytes, entry, [0, 0, 0, 1], name, ps, cs, Nops(close) + last);
    AtParts(bytes, entry + 4 + |name| + |ps| + |cs|, Nops(close), last);
    TokenRead(bytes, entry, 1);
  }

  lemma {:induction false} ChildBlocksParse(b: Blob, limit: nat, entry: nat, node: Node, p: nat, cs: seq<Spaced>,
                                            names: map<seq<Byte>, U32>)
    requires b.Placed() && StringsHold(b, names) && entry < p && WholeWords(p)
    requires forall i | 0 <= i < |cs| :: Printable(TreeOf(cs[i]), names)
    requires At(b.bytes, p, NodeBlocks(cs, names))
    requires p + |NodeBlocks(cs, names)| <= limit && b.Near(p + |NodeBlocks(cs, names)|)
    ensures WholeWords(p + |NodeBlocks(cs, names)|)
    ensures Loop(b, limit, entry, NodeName, node, p) ==
            Loop(b, limit, entry, NodeName, node.(children := node.children + TreesOf(cs)),
                 p + |NodeBlocks(cs, names)|)
    decreases cs
  {
    hide *;
    PlacedFits(b);
    NodeBlocksAre(cs, names);
    TreesMove(node.children, cs);
    if cs != [] {
      var n, first, rest := cs[0].lead, NodeBlock(cs[0], names), NodeBlocks(cs[1..], names);
      AtParts(b.bytes, p, Nops(n), first + rest);
      AtParts(b.bytes, p + 4 * n, first, rest);
      NopsSkipped(b, limit, entry, node, p, n);
      NopsWhole(p, n);
      var q := p + 4 * n + |first|;
      NearBelow(b, q, p + |NodeBlocks(cs, names)|);
      NopsIgnored(b, limit, p + 4 * n, cs[0], names);
      ChildRead(b, limit, entry, node, p + 4 * n, TreeOf(cs[0]), q - 4);
      ChildBlocksParse(b, limit, entry, node.(children := node.children + [TreeOf(cs[0])]), q, cs[1..], names);
    }
  }

  /** A node up to the word behind its last child and the FDT_NOP tokens there: the parser has the whole tree. */
  lemma {:induction false} BodyParses(b: Blob, limit: nat, entry: nat, s: Spaced, names: map<seq<Byte>, U32>,
                                      last: seq<Byte>)
    requires b.Placed() && StringsHold(b, names) && WholeWords(entry) && Printable(TreeOf(s), names)
    requires |last| == 4 && At(b.bytes, entry, NodeWith(s, names, last))
    requires entry + |NodeWith(s, names, last)| <= limit && b.Near(entry + |NodeWith(s, names, last)|)
    ensures |NodeWith(s, names, last)| >= 8 && WholeWords(entry + |NodeWith(s, names, last)|)
    ensures WordAt(b.bytes, entry) == Some(1)
    ensures var p := entry + |NodeWith(s, names, last)| - 4;
            At(b.bytes, p, last) && Parse(b, limit, entry) == Loop(b, limit, entry, NodeName, TreeOf(s), p)
    decreases s, 0
  {
    hide *;
    PlacedFits(b);
    NodeWithIs(s, names, last);
    var name, ps, cs := Filled(s.name + [0]), PropertyBlocks(s.properties, names), NodeBlocks(s.children, names);
    var p1 := entry + 4;
    var p2 := p1 + |name|;
    var p3 := p2 + |ps|;
    var p4, end := p3 + |cs|, entry + |NodeWith(s, names, last)|;
    PartsAt(b.bytes, entry, NodeWith(s, names, last), name, ps, cs, s.close, last);
    FilledIs(s.name + [0]);
    BlocksWhole(s.properties, names);
    NodeWords(entry, name, ps);
    ParseIs(b, limit, entry);
    BeginRead(b, limit, entry, Node([], [], []));
    NamePlaceLast(s.name);
    NearBelow(b, p1 + RoundUp(|s.name|), end);
    NameParses(b, limit, entry, Node([], [], []), p1, s.name);
    NearBelow(b, p3, end);
    SpreadParses(b, limit, entry, Node(s.name, [], []), p2, s.properties, names);
    assert [] + PropertiesOf(s.properties) == PropertiesOf(s.properties);
    NearBelow(b, p4, end);
    ChildBlocksParse(b, limit, entry, Node(s.name, PropertiesOf(s.properties), []), p3, s.children, names);
    assert [] + TreesOf(s.children) == TreesOf(s.children);
    NopsSkipped(b, limit, entry, TreeOf(s), p4, s.close);
    LastWord(p4, s.close);
  }

  /**
    A node written with any number of FDT_NOP tokens in front of its properties, its children and its end
    parses to the tree without them, and the parser is left on the node's FDT_END_NODE token.
   */
  lemma {:induction false} NopsIgnored(b: Blob, limit: nat, entry: nat, s: Spaced, names: map<seq<Byte>, U32>)
    requires b.Placed() && StringsHold(b, names) && WholeWords(entry) && Printable(TreeOf(s), names)
    requires At(b.bytes, entry, NodeBlock(s, names))
    requires entry + |NodeBlock(s, names)| <= limit && b.Near(entry + |NodeBlock(s, names)|)
    ensures |NodeBlock(s, names)| >= 8 && WholeWords(entry + |NodeBlock(s, names)|)
    ensures WordAt(b.bytes, entry) == Some(1)
    ensures Parse(b, limit, entry) == Parsed(TreeOf(s), entry + |NodeBlock(s, names)| - 4)
    decreases s, 1
  {
    hide *;
    PlacedFits(b);
    NodeBlockIs(s, names);
    NodeWithIs(s, names, [0, 0, 0, 2]);
    BodyParses(b, limit, entry, s, names, [0, 0, 0, 2]);
    TokenRead(b.bytes, entry + |NodeBlock(s, names)| - 4, 2);
    EndRead(b, limit, entry, TreeOf(s), entry + |NodeBlock(s, names)| - 4);
  }

  lemma LastWord(p: nat, n: nat)
    requires WholeWords(p)
    ensures WholeWords(p + 4 * n + 4)
  {
  }

  lemma BeginRead(b: Blob, limit: nat, entry: nat, node: Node)
    requires b.Fits() && entry < limit && WordAt(b.bytes, entry) == Some(1)
    ensures Loop(b, limit, entry, Start, node, entry) == Loop(b, limit, entry, BeginNode, node, entry + 4)
  {
    OnStart(b, limit, entry, node, entry);
  }

  lemma EndRead(b: Blob, limit: nat, entry: nat, node: Node, p: nat)
    requires b.Fits() && entry < p < limit && WordAt(b.bytes, p) == Some(2)
    ensures Loop(b, limit, entry, NodeName, node, p) == Parsed(node, p)
  {
    OnEnd(b, limit, entry, node, p);
  }

  lemma ChildRead(b: Blob, limit: nat, entry: nat, node: Node, p: nat, c: Node, q: nat)
    requires b.Fits() && entry < p < limit && WordAt(b.bytes, p) == Some(1) && Parse(b, limit, p) == Parsed(c, q)
    ensures Loop(b, limit, entry, NodeName, node, p) ==
            Loop(b, limit, entry, NodeName, node.(children := node.children + [c]), q + 4)
  {
    OnChild(b, limit, entry, node, p, c, q);
  }

  /**
    Section 5.4.2 also allows FDT_NOP tokens in front of the root. There the parser is not ready for them: the
    tree comes back exactly when there are none, and otherwise the root is rejected.
   */
  lemma {:induction false} RootNopsExactly(b: Blob, limit: nat, entry: nat, s: Spaced, names: map<seq<Byte>, U32>)
    requires b.Placed() && StringsHold(b, names) && WholeWords(entry) && Printable(TreeOf(s), names)
    requires At(b.bytes, entry, Nops(s.lead) + NodeBlock(s, names))
    requires entry + 4 * s.lead + |NodeBlock(s, names)| <= limit
    requires b.Near(entry + 4 * s.lead + |NodeBlock(s, names)|)
    ensures s.lead == 0 ==> Parse(b, limit, entry).Parsed? && Parse(b, limit, entry).node == TreeOf(s)
    ensures s.lead > 0 ==> Parse(b, limit, entry) == Rejected
  {
    hide *;
    PlacedFits(b);
    NopsAre(s.lead);
    var block := NodeBlock(s, names);
    if s.lead == 0 {
      assert Nops(s.lead) + block == block;
      NopsIgnored(b, limit, entry, s, names);
    } else {
      assert Nops(s.lead) + block == [0, 0, 0, 4] + (Nops(s.lead - 1) + block);
      AtParts(b.bytes, entry, [0, 0, 0, 4], Nops(s.lead - 1) + block);
      TokenRead(b.bytes, entry, 4);
      Refused(b, limit, entry);
    }
  }

  lemma NopsAre(n: nat)
    ensures Nops(n) == if n == 0 then [] else [0, 0, 0, 4] + Nops(n - 1)
  {
  }

  lemma Refused(b: Blob, limit: nat, entry: nat)
    requires b.Fits() && entry < limit && WordAt(b.bytes, entry) == Some(4)
    ensures Parse(b, limit, entry) == Rejected
  {
  }

  // ----- other tokens -----

  lemma {:induction false} RunsToLimit(b: Blob, limit: nat, entry: nat, node: Node, p: nat)
    requires b.Fits() && entry < p && limit + 3 <= |b.bytes|
    ensures var r := Loop(b, limit, entry, Ended, node, p); r.Parsed? && r.node == node && limit <= r.offset
    decreases limit - p
  {
    if p < limit {
      RunsToLimit(b, limit, entry, node, p + 4);
    }
  }

  lemma OnEndToken(b: Blob, limit: nat, entry: nat, node: Node, p: nat)
    requires b.Fits() && entry < p < limit && WordAt(b.bytes, p) == Some(9)
    ensures Loop(b, limit, entry, NodeName, node, p) == Loop(b, limit, entry, Ended, node, p + 4)
  {
  }

  lemma OnUnknown(b: Blob, limit: nat, entry: nat, node: Node, p: nat, w: U32)
    requires b.Fits() && entry < p < limit && WordAt(b.bytes, p) == Some(w) && w !in {0, 1, 2, 3, 4, 9}
    ensures Loop(b, limit, entry, NodeName, node, p) == Rejected
  {
  }

  /**
    With an FDT_END token where its FDT_END_NODE should be, a tree is
    still complete; what follows is not looked at.
   */
  lemma {:induction false} EndTokenEnds(b: Blob, limit: nat, entry: nat, s: Spaced, names: map<seq<Byte>, U32>)
    requires b.Placed() && StringsHold(b, names) && WholeWords(entry) && Printable(TreeOf(s), names)
    requires At(b.bytes, entry, NodeWith(s, names, [0, 0, 0, 9])) && limit + 3 <= |b.bytes|
    requires var end := entry + |NodeWith(s, names, [0, 0, 0, 9])|; end <= limit && b.Near(end)
    ensures var r := Parse(b, limit, entry); r.Parsed? && r.node == TreeOf(s) && limit <= r.offset
  {
    hide *;
    PlacedFits(b);
    BodyParses(b, limit, entry, s, names, [0, 0, 0, 9]);
    var p := entry + |NodeWith(s, names, [0, 0, 0, 9])| - 4;
    TokenRead(b.bytes, p, 9);
    OnEndToken(b, limit, entry, TreeOf(s), p);
    RunsToLimit(b, limit, entry, TreeOf(s), p + 4);
  }

  /** With any word there that is no token, and not zero, the node is rejected, whatever it held so far. */
  lemma {:induction false} UnknownWordRejects(b: Blob, limit: nat, entry: nat, s: Spaced, names: map<seq<Byte>, U32>,
                                              w: U32)
    requires b.Placed() && StringsHold(b, names) && WholeWords(entry) && Printable(TreeOf(s), names)
    requires At(b.bytes, entry, NodeWith(s, names, Word32(w))) && w !in {0, 1, 2, 3, 4, 9}
    requires var end := entry + |NodeWith(s, names, Word32(w))|; end <= limit && b.Near(end)
    ensures Parse(b, limit, entry) == Rejected
  {
    hide *;
    PlacedFits(b);
    BodyParses(b, limit, entry, s, names, Word32(w));
    var p := entry + |NodeWith(s, names, Word32(w))| - 4;
    WordRead(b.bytes, p, w);
    OnUnknown(b, limit, entry, TreeOf(s), p, w);
  }

  lemma OnRejected(b: Blob, limit: nat, entry: nat, node: Node, p: nat)
    requires b.Fits() && entry < p < limit && WordAt(b.bytes, p) == Some(1) && Parse(b, limit, p) == Rejected
    ensures Loop(b, limit, entry, NodeName, node, p) == Loop(b, limit, entry, NodeName, node, p + 4)
  {
    hide Parse;
  }

  lemma LettersAreNoToken(bytes: seq<Byte>, p: nat)
    requires p + 4 <= |bytes| && bytes[p] != 0
    ensures WordAt(bytes, p).Some? && WordAt(bytes, p).value >= 0x100_0000
  {
  }

  /**
    A child that is rejected takes its parent with it: the parser goes on inside the child, and the first
    letters of its name are no token. A child without a name does not.
   */
  lemma {:induction false} RejectionSpreads(b: Blob, limit: nat, entry: nat, node: Node, p: nat)
    requires b.Fits() && entry < p && p + 4 < limit && p + 8 <= |b.bytes|
    requires WordAt(b.bytes, p) == Some(1) && Parse(b, limit, p) == Rejected
    ensures b.bytes[p + 4] != 0 ==> Loop(b, limit, entry, NodeName, node, p) == Rejected
    ensures WordAt(b.bytes, p + 4) == Some(0) ==>
              Loop(b, limit, entry, NodeName, node, p) == Loop(b, limit, entry, NodeName, node, p + 8)
  {
    hide Loop, Parse, WordAt;
    OnRejected(b, limit, entry, node, p);
    if b.bytes[p + 4] != 0 {
      LettersAreNoToken(b.bytes, p + 4);
      OnUnknown(b, limit, entry, node, p + 4, WordAt(b.bytes, p + 4).value);
    }
    if WordAt(b.bytes, p + 4) == Some(0) {
      OnZero(b, limit, entry, node, p + 4);
    }
  }
}

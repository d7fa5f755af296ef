/**
  The flattened device tree: the recursive structure-block parser, when it stops, and what it makes of
  a block printed as section 5.4 of the Devicetree Specification v0.4 lays it out.
 */
module Fdt {
  import opened MachineWords

  const BEGIN_NODE: U32 := 1
  const END_NODE: U32 := 2
  const PROP: U32 := 3
  const NOP: U32 := 4
  const END: U32 := 9

  datatype Property = Property(name: seq<Byte>, value: seq<Byte>)

  datatype Node = Node(name: seq<Byte>, properties: seq<Property>, children: seq<Node>)

  /** A blob at address `base`; `strings` is the offset of the strings block. Offsets count from the header. */
  datatype Blob = Blob(bytes: seq<Byte>, strings: U32, base: Word) {
    /** Sizes are 32-bit, and the blob does not wrap around the end of the address space. */
    ghost predicate Fits() {
      |bytes| + 8 <= 0x1_0000_0000 && base + |bytes| + 8 <= U64
    }

    /** It also lies word-aligned. */
    ghost predicate Placed() {
      Fits() && base % 4 == 0
    }

    /** It also lies below 4 GiB, where `AlignTo` does not lose bits. */
    ghost predicate Valid() {
      base % 4 == 0 && base + |bytes| + 8 <= 0x1_0000_0000
    }

    /** Offset `q` lies below 4 GiB. */
    predicate Near(q: nat) {
      base + q < 0x1_0000_0000
    }
  }

  datatype State = Start | BeginNode | NodeName | InProp | EndNode | Ended

  /** A node and the offset after it; a rejected node; or a read past the blob. */
  datatype Outcome = Parsed(node: Node, offset: nat) | Rejected | Fault

  // ----- reading the blob -----

  /** `align_to`: the mask is 32 bits wide, so the upper half of the address is lost. */
  function AlignTo(address: Word): Word {
    (address + 3) % 0x1_0000_0000 / 4 * 4
  }

  /** Aligning rounds up to a multiple of four precisely for addresses below 4 GiB less three bytes. */
  lemma AlignToRoundsUp(address: Word)
    ensures AlignTo(address) % 4 == 0
    ensures address <= AlignTo(address) < address + 4 <==> address + 3 < 0x1_0000_0000
  {
  }

  predicate WholeWords(n: nat) {
    n % 4 == 0
  }

  lemma WordsAdd(a: nat, b: nat)
    requires WholeWords(a)
    ensures WholeWords(a + b) <==> WholeWords(b)
    ensures WholeWords(4) && WholeWords(0) && WholeWords(12)
  {
  }

  function RoundUp(p: nat): (r: nat)
    ensures p <= r < p + 4 && WholeWords(r)
  {
    (p + 3) / 4 * 4
  }

  /** The offset that `align_to` moves `p` to, as the 64-bit difference of the addresses. */
  function Aligned(b: Blob, p: nat): (r: nat)
    requires b.Fits() && p <= |b.bytes|
    ensures p <= r
  {
    AlignedForward(b, p);
    Wrap(AlignTo(b.base + p) - b.base)
  }

  /** Losing the upper half of the address moves the parser ahead of its limit, not back into the blob. */
  lemma AlignedForward(b: Blob, p: nat)
    requires b.Fits() && p <= |b.bytes|
    ensures p <= Wrap(AlignTo(b.base + p) - b.base)
    ensures b.base + p + 3 >= 0x1_0000_0000 ==> Wrap(AlignTo(b.base + p) - b.base) >= 0x1_0000_0000
  {
    var a: Word := b.base + p;
    AlignToBelow(a);
    if a + 3 >= 0x1_0000_0000 {
      WrapNegative(AlignTo(a) - b.base);
    } else {
      AlignToRoundsUp(a);
      WrapSmall(AlignTo(a) - b.base);
    }
  }

  lemma AlignToBelow(address: Word)
    ensures address + 3 >= 0x1_0000_0000 ==>
              AlignTo(address) <= address + 3 - 0x1_0000_0000 && AlignTo(address) < 0x1_0000_0000
  {
  }

  lemma WrapNegative(x: int)
    requires -U64 <= x < 0
    ensures Wrap(x) == x + U64
  {
  }

  /** In a word-aligned blob the offset is rounded up, unless that is where the address loses its upper half. */
  lemma AlignedIs(b: Blob, p: nat)
    requires b.Placed() && p <= |b.bytes|
    ensures if b.Near(RoundUp(p)) then Aligned(b, p) == RoundUp(p) else Aligned(b, p) >= 0x1_0000_0000
  {
    RoundedAddress(b.base, p);
    AlignedForward(b, p);
    if b.Near(RoundUp(p)) {
      WrapSmall(RoundUp(p));
    }
    hide AlignTo, RoundUp, Wrap;
  }

  lemma RoundedAddress(base: Word, p: nat)
    requires base % 4 == 0 && base + p + 3 < U64
    ensures base + p + 3 < 0x1_0000_0000 <==> base + RoundUp(p) < 0x1_0000_0000
    ensures base + p + 3 < 0x1_0000_0000 ==> AlignTo(base + p) == base + RoundUp(p)
  {
    assert base == 4 * (base / 4);
    assert (base + p + 3) / 4 == base / 4 + (p + 3) / 4;
  }

  function WordAt(bytes: seq<Byte>, p: nat): Option<U32> {
    if p + 4 <= |bytes| then
      Some((bytes[p] as int) * 0x100_0000 + (bytes[p + 1] as int) * 0x1_0000 + (bytes[p + 2] as int) * 0x100
           + (bytes[p + 3] as int))
    else None
  }

  /** The NUL-terminated string at `p`, if a NUL follows. */
  function CString(bytes: seq<Byte>, p: nat): (r: Option<seq<Byte>>)
    ensures r.Some? ==> p + |r.value| < |bytes| && bytes[p..p + |r.value|] == r.value
    decreases |bytes| - p
  {
    if p >= |bytes| then None
    else if bytes[p] == 0 then Some([])
    else
      var rest := CString(bytes, p + 1);
      if rest.None? then None else Some([bytes[p]] + rest.value)
  }

  /** It is the text in front of the first NUL, and there is none exactly when no NUL follows. */
  lemma {:induction false} CStringExact(bytes: seq<Byte>, p: nat)
    ensures var r := CString(bytes, p);
            if r.Some? then
              p + |r.value| < |bytes| && bytes[p..p + |r.value|] == r.value && 0 !in r.value
                && bytes[p + |r.value|] == 0
            else forall i | p <= i < |bytes| :: bytes[i] != 0
    decreases |bytes| - p
  {
    if p < |bytes| && bytes[p] != 0 {
      CStringExact(bytes, p + 1);
    }
  }

  // ----- the parser as a function -----

  function Rank(state: State): nat {
    match state
    case BeginNode => 2
    case NodeName => 1
    case _ => 0
  }

  function Parse(b: Blob, limit: nat, entry: nat): (r: Outcome)
    requires b.Fits()
    ensures r.Parsed? ==> entry <= r.offset
    decreases limit - entry, 2
  {
    Loop(b, limit, entry, Start, Node([], [], []), entry)
  }

  /**
    The parser's loop from `p` in `state`. It stops on every input: each turn moves towards `limit`, or
    stays put and goes down in rank; a child starts beyond its parent's entry even after a rejected one.
   */
  function Loop(b: Blob, limit: nat, entry: nat, state: State, node: Node, p: nat): (r: Outcome)
    requires b.Fits() && entry <= p && (state != Start ==> entry < p)
    ensures r.Parsed? ==> p <= r.offset
    decreases limit - entry, 1, limit - p, Rank(state)
  {
    if p >= limit then Parsed(node, p)
    else
      var type_ := WordAt(b.bytes, p);
      if type_.None? then Fault
      else
        match state
        case Start => if type_.value == BEGIN_NODE then Loop(b, limit, entry, BeginNode, node, p + 4) else Rejected
        case BeginNode =>
          var name := CString(b.bytes, p);
          if name.None? then Fault
          else
            Loop(b, limit, entry, NodeName, node.(name := name.value), Aligned(b, p + |name.value|))
        case NodeName =>
          if type_.value == 0 || type_.value == NOP then Loop(b, limit, entry, NodeName, node, p + 4)
          else if type_.value == PROP then Loop(b, limit, entry, InProp, node, p + 4)
          else if type_.value == BEGIN_NODE then
            var child := Parse(b, limit, p);
            match child
            case Fault => Fault
            case Rejected => Loop(b, limit, entry, NodeName, node, p + 4)
            case Parsed(c, q) => Loop(b, limit, entry, NodeName, node.(children := node.children + [c]), q + 4)
          else if type_.value == END_NODE then Loop(b, limit, entry, EndNode, node, p)
          else if type_.value == END then Loop(b, limit, entry, Ended, node, p + 4)
          else Rejected
        case InProp =>
          var prop := PropertyAt(b, p);
          if prop.None? then Fault
          else
            Loop(b, limit, entry, NodeName, node.(properties := node.properties + [prop.value]),
                 Aligned(b, p + 8 + |prop.value.value|))
        case EndNode => Parsed(node, p)
        case Ended => Loop(b, limit, entry, Ended, node, p + 4)
  }

  /** A property header at `p`: length, offset of the name in the strings block, value. */
  function PropertyAt(b: Blob, p: nat): (r: Option<Property>)
    ensures r.Some? ==> p + 8 + |r.value.value| <= |b.bytes|
  {
    var len, nameAt := WordAt(b.bytes, p), WordAt(b.bytes, p + 4);
    if len.None? || nameAt.None? || p + 8 + len.value > |b.bytes| then None
    else
      var name := CString(b.bytes, b.strings + nameAt.value);
      if name.None? then None else Some(Property(name.value, b.bytes[p + 8..p + 8 + len.value]))
  }

  // ----- the parser as the source has it -----

  method ParseNode(b: Blob, limit: nat, entry: nat) returns (r: Outcome)
    requires b.Fits()
    ensures r == Parse(b, limit, entry)
    decreases limit - entry
  {
    hide WordAt, CString, PropertyAt, Aligned, RoundUp, AlignTo;
    var state, node, p := Start, Node([], [], []), entry;
    while p < limit
      invariant entry <= p && (state != Start ==> entry < p)
      invariant Loop(b, limit, entry, state, node, p) == Parse(b, limit, entry)
      decreases limit - p, Rank(state)
    {
      var type_ := WordAt(b.bytes, p);
      if type_.None? {
        return Fault;
      }
      var skipIncrement := false;
      match state {
        case Start =>
          if type_.value == BEGIN_NODE {
            state := BeginNode;
          } else {
            return Rejected;
          }
        case BeginNode =>
          var name := CString(b.bytes, p);
          if name.None? {
            return Fault;
          }
          node := node.(name := name.value);
          p := Aligned(b, p + |name.value|);
          skipIncrement := true;
          state := NodeName;
        case NodeName =>
          if type_.value == 0 || type_.value == NOP {
            p := p + 4;
            continue;
          } else if type_.value == PROP {
            state := InProp;
          } else if type_.value == BEGIN_NODE {
            var child := ParseNode(b, limit, p);
            if child.Fault? {
              return Fault;
            }
            if child.Parsed? {
              node, p := node.(children := node.children + [child.node]), child.offset;
            }
          } else if type_.value == END_NODE {
            state := EndNode;
            skipIncrement := true;
          } else if type_.value == END {
            state := Ended;
          } else {
            return Rejected;
          }
        case InProp =>
          var prop := PropertyAt(b, p);
          if prop.None? {
            return Fault;
          }
          node := node.(properties := node.properties + [prop.value]);
          p := Aligned(b, p + 8 + |prop.value.value|);
          skipIncrement := true;
          state := NodeName;
        case EndNode =>
          return Parsed(node, p);
        case Ended =>
      }
      if !skipIncrement {
        p := p + 4;
      }
    }
    return Parsed(node, p);
  }

  // ----- the structure block of the specification -----

  function Be32(x: U32): (r: seq<Byte>)
    ensures |r| == 4
  {
    [x / 0x100 / 0x100 / 0x100, x / 0x100 / 0x100 % 0x100, x / 0x100 % 0x100, x % 0x100]
  }

  function Zeros(n: nat): (r: seq<Byte>)
    ensures |r| == n && forall i | 0 <= i < n :: r[i] == 0
  {
    seq(n, _ => 0)
  }

  function Padded(s: seq<Byte>): (r: seq<Byte>)
    ensures |r| == RoundUp(|s|)
  {
    s + Zeros(RoundUp(|s|) - |s|)
  }

  /** What a tree needs to be written down: NUL-free node names, 32-bit lengths, a place for every property name. */
  ghost predicate Printable(n: Node, names: map<seq<Byte>, U32>)
    decreases n
  {
    && 0 !in n.name
    && (forall i | 0 <= i < |n.properties| :: n.properties[i].name in names && |n.properties[i].value| < 0x1_0000_0000)
    && forall i | 0 <= i < |n.children| :: Printable(n.children[i], names)
  }

  function PrintProperty(p: Property, names: map<seq<Byte>, U32>): (r: seq<Byte>)
    requires p.name in names && |p.value| < 0x1_0000_0000
    ensures |r| == 12 + RoundUp(|p.value|) && WholeWords(|r|)
  {
    WordsAdd(12, RoundUp(|p.value|));
    Be32(PROP) + (Be32(|p.value|) + (Be32(names[p.name]) + Padded(p.value)))
  }

  function PrintProperties(ps: seq<Property>, names: map<seq<Byte>, U32>): (r: seq<Byte>)
    requires forall i | 0 <= i < |ps| :: ps[i].name in names && |ps[i].value| < 0x1_0000_0000
    ensures WholeWords(|r|)
    decreases |ps|
  {
    hide WholeWords;
    WordsAdd(0, 0);
    if ps == [] then []
    else
      var first, rest := PrintProperty(ps[0], names), PrintProperties(ps[1..], names);
      WordsAdd(|first|, |rest|);
      first + rest
  }

  ghost function PrintNode(n: Node, names: map<seq<Byte>, U32>): (r: seq<Byte>)
    requires Printable(n, names)
    ensures |r| >= 12 && WholeWords(|r|)
    decreases n
  {
    hide WholeWords;
    var name, ps, cs := Padded(n.name + [0]), PrintProperties(n.properties, names), PrintChildren(n.children, names);
    WordsAdd(|cs|, 4);
    WordsAdd(|ps|, |cs| + 4);
    WordsAdd(|name|, |ps| + |cs| + 4);
    WordsAdd(4, |name| + |ps| + |cs| + 4);
    Be32(BEGIN_NODE) + (name + (ps + (cs + Be32(END_NODE))))
  }

  ghost function PrintChildren(cs: seq<Node>, names: map<seq<Byte>, U32>): (r: seq<Byte>)
    requires forall i | 0 <= i < |cs| :: Printable(cs[i], names)
    ensures WholeWords(|r|)
    decreases cs
  {
    hide WholeWords;
    WordsAdd(0, 0);
    if cs == [] then []
    else
      var first, rest := PrintNode(cs[0], names), PrintChildren(cs[1..], names);
      WordsAdd(|first|, |rest|);
      first + rest
  }

  /** `s` stands at `p`. */
  ghost predicate At(bytes: seq<Byte>, p: nat, s: seq<Byte>) {
    p + |s| <= |bytes| && bytes[p..p + |s|] == s
  }

  lemma AtParts(bytes: seq<Byte>, p: nat, s: seq<Byte>, t: seq<Byte>)
    requires At(bytes, p, s + t)
    ensures At(bytes, p, s) && At(bytes, p + |s|, t)
  {
    assert bytes[p..p + |s|] == (s + t)[..|s|];
    assert bytes[p + |s|..p + |s| + |t|] == (s + t)[|s|..];
  }

  lemma WordPrinted(bytes: seq<Byte>, p: nat, x: U32)
    requires At(bytes, p, Be32(x))
    ensures WordAt(bytes, p) == Some(x)
  {
    var s := bytes[p..p + 4];
    assert s[0] == bytes[p] && s[1] == bytes[p + 1] && s[2] == bytes[p + 2] && s[3] == bytes[p + 3];
    Be32Is(x);
  }

  lemma Be32Is(x: U32)
    ensures x / 0x100 / 0x100 / 0x100 * 0x100_0000 + x / 0x100 / 0x100 % 0x100 * 0x1_0000 + x / 0x100 % 0x100 * 0x100
              + x % 0x100
         == x
  {
    Split(x);
    Split(x / 0x100);
    Split(x / 0x100 / 0x100);
  }

  lemma Split(x: nat)
    ensures x == 0x100 * (x / 0x100) + x % 0x100
  {
  }

  lemma {:induction false} CStringIs(bytes: seq<Byte>, p: nat, s: seq<Byte>)
    requires 0 !in s && At(bytes, p, s + [0])
    ensures CString(bytes, p) == Some(s)
    decreases |s|
  {
    if s == [] {
      AtParts(bytes, p, [0], []);
      assert bytes[p..p + 1] == [0];
    } else {
      assert s + [0] == [s[0]] + (s[1..] + [0]);
      AtParts(bytes, p, [s[0]], s[1..] + [0]);
      assert bytes[p..p + 1] == [s[0]];
      CStringIs(bytes, p + 1, s[1..]);
      assert s == [s[0]] + s[1..];
    }
  }

  // ----- the parser's turns on a printed block -----

  lemma OnStart(b: Blob, limit: nat, entry: nat, node: Node, p: nat)
    requires b.Fits() && entry <= p < limit && WordAt(b.bytes, p) == Some(BEGIN_NODE)
    ensures Loop(b, limit, entry, Start, node, p) == Loop(b, limit, entry, BeginNode, node, p + 4)
  {
  }

  lemma OnName(b: Blob, limit: nat, entry: nat, node: Node, p: nat, name: seq<Byte>)
    requires b.Fits() && entry < p < limit && WordAt(b.bytes, p).Some? && CString(b.bytes, p) == Some(name)
    ensures p + |name| <= |b.bytes|
    ensures Loop(b, limit, entry, BeginNode, node, p)
            == Loop(b, limit, entry, NodeName, node.(name := name), Aligned(b, p + |name|))
  {
    hide Aligned;
  }

  lemma OnZero(b: Blob, limit: nat, entry: nat, node: Node, p: nat)
    requires b.Fits() && entry < p < limit && WordAt(b.bytes, p) == Some(0)
    ensures Loop(b, limit, entry, NodeName, node, p) == Loop(b, limit, entry, NodeName, node, p + 4)
  {
  }

  lemma OnProp(b: Blob, limit: nat, entry: nat, node: Node, p: nat, prop: Property)
    requires b.Fits() && entry < p && p + 4 < limit && WordAt(b.bytes, p) == Some(PROP)
    requires PropertyAt(b, p + 4) == Some(prop)
    ensures p + 12 + |prop.value| <= |b.bytes|
    ensures Loop(b, limit, entry, NodeName, node, p) ==
            Loop(b, limit, entry, NodeName, node.(properties := node.properties + [prop]),
                 Aligned(b, p + 12 + |prop.value|))
  {
    hide Aligned;
    assert p + 4 + 8 + |prop.value| == p + 12 + |prop.value|;
    assert Loop(b, limit, entry, NodeName, node, p) == Loop(b, limit, entry, InProp, node, p + 4);
  }

  lemma OnPropToken(b: Blob, limit: nat, entry: nat, node: Node, p: nat)
    requires b.Fits() && entry < p < limit && WordAt(b.bytes, p) == Some(PROP)
    ensures Loop(b, limit, entry, NodeName, node, p) == Loop(b, limit, entry, InProp, node, p + 4)
  {
  }

  lemma OnChild(b: Blob, limit: nat, entry: nat, node: Node, p: nat, c: Node, q: nat)
    requires b.Fits() && entry < p < limit && WordAt(b.bytes, p) == Some(BEGIN_NODE)
    requires Parse(b, limit, p) == Parsed(c, q)
    ensures Loop(b, limit, entry, NodeName, node, p) ==
            Loop(b, limit, entry, NodeName, node.(children := node.children + [c]), q + 4)
  {
  }

  lemma OnEnd(b: Blob, limit: nat, entry: nat, node: Node, p: nat)
    requires b.Fits() && entry < p < limit && WordAt(b.bytes, p) == Some(END_NODE)
    ensures Loop(b, limit, entry, NodeName, node, p) == Parsed(node, p)
  {
  }

  lemma OnLimit(b: Blob, limit: nat, entry: nat, state: State, node: Node, p: nat)
    requires b.Fits() && entry <= p && (state != Start ==> entry < p) && limit <= p
    ensures Loop(b, limit, entry, state, node, p) == Parsed(node, p)
  {
  }

  lemma PlacedFits(b: Blob)
    requires b.Placed()
    ensures b.Fits()
  {
  }

  lemma NearBelow(b: Blob, q: nat, more: nat)
    requires b.Near(more) && q <= more
    ensures b.Near(q)
  {
  }

  // ----- how far the parser has to be let -----

  /** The last place, from the start of a name, that the parser looks at for the name's sake. */
  function LastName(name: seq<Byte>): nat {
    if WholeWords(|name|) then |name| else 0
  }

  /** The same for a list of properties: the header of the last one. */
  function LastProperty(ps: seq<Property>, names: map<seq<Byte>, U32>): nat
    requires ps != [] && forall i | 0 <= i < |ps| :: ps[i].name in names && |ps[i].value| < 0x1_0000_0000
    decreases |ps|
  {
    if |ps| == 1 then 4 else |PrintProperty(ps[0], names)| + LastProperty(ps[1..], names)
  }

  /** And for a whole node, from its BEGIN_NODE token: everything but what closes it. */
  ghost function LastContent(n: Node, names: map<seq<Byte>, U32>): nat
    requires Printable(n, names)
    decreases n, |n.children| + 1
  {
    var name, ps := |Padded(n.name + [0])|, |PrintProperties(n.properties, names)|;
    AllChildren(n);
    if n.children != [] then 4 + name + ps + LastChild(n, n.children, names)
    else if n.properties != [] then 4 + name + LastProperty(n.properties, names)
    else 4 + LastName(n.name)
  }

  ghost predicate ChildrenOf(parent: Node, cs: seq<Node>) {
    forall i | 0 <= i < |cs| :: cs[i] in parent.children
  }

  /** A child is smaller than its parent. */
  lemma OneOf(parent: Node, cs: seq<Node>)
    requires cs != [] && ChildrenOf(parent, cs)
    ensures (parent decreases to cs[0]) && ChildrenOf(parent, cs[1..])
  {
    assert cs[0] in parent.children;
  }

  lemma AllChildren(n: Node)
    ensures ChildrenOf(n, n.children)
  {
  }

  ghost function LastChild(parent: Node, cs: seq<Node>, names: map<seq<Byte>, U32>): nat
    requires cs != [] && ChildrenOf(parent, cs) && forall i | 0 <= i < |cs| :: Printable(cs[i], names)
    decreases parent, |cs|
  {
    OneOf(parent, cs);
    if |cs| == 1 then LastContent(cs[0], names) else |PrintNode(cs[0], names)| + LastChild(parent, cs[1..], names)
  }

  /** Where the last alignment inside a node ends: that of its last property, or of its name. */
  ghost function LastEnd(n: Node, names: map<seq<Byte>, U32>): nat
    requires Printable(n, names)
    decreases n, |n.children| + 1
  {
    var name, ps := |Padded(n.name + [0])|, |PrintProperties(n.properties, names)|;
    AllChildren(n);
    if n.children != [] then 4 + name + ps + LastEndIn(n, n.children, names)
    else if n.properties != [] then 4 + name + ps
    else 4 + RoundUp(|n.name|)
  }

  ghost function LastEndIn(parent: Node, cs: seq<Node>, names: map<seq<Byte>, U32>): nat
    requires cs != [] && ChildrenOf(parent, cs) && forall i | 0 <= i < |cs| :: Printable(cs[i], names)
    decreases parent, |cs|
  {
    OneOf(parent, cs);
    if |cs| == 1 then LastEnd(cs[0], names) else |PrintNode(cs[0], names)| + LastEndIn(parent, cs[1..], names)
  }

  /**
    What the parser must get to for the tree to be complete, wherever it is left then: the header of the last
    property, or the name of the last node, or the token of a last node without a name.
   */
  ghost function Reach(n: Node, names: map<seq<Byte>, U32>): nat
    requires Printable(n, names)
    decreases n, |n.children| + 1
  {
    var name, ps := |Padded(n.name + [0])|, |PrintProperties(n.properties, names)|;
    AllChildren(n);
    if n.children != [] then 4 + name + ps + ReachIn(n, n.children, names)
    else if n.properties != [] then 4 + name + LastProperty(n.properties, names)
    else if n.name == [] then 0 else 4
  }

  ghost function ReachIn(parent: Node, cs: seq<Node>, names: map<seq<Byte>, U32>): nat
    requires cs != [] && ChildrenOf(parent, cs) && forall i | 0 <= i < |cs| :: Printable(cs[i], names)
    decreases parent, |cs|
  {
    OneOf(parent, cs);
    if |cs| == 1 then Reach(cs[0], names) else |PrintNode(cs[0], names)| + ReachIn(parent, cs[1..], names)
  }

  /** Of properties printed at `p`, all but the last end below 4 GiB. */
  predicate ClearProperties(b: Blob, p: nat, ps: seq<Property>, names: map<seq<Byte>, U32>)
    requires forall i | 0 <= i < |ps| :: ps[i].name in names && |ps[i].value| < 0x1_0000_0000
    decreases |ps|
  {
    |ps| > 1 ==>
      var q := p + |PrintProperty(ps[0], names)|;
      b.Near(q) && ClearProperties(b, q, ps[1..], names)
  }

  /** Of the names and properties of a node printed at `p`, all but the last end below 4 GiB. */
  ghost predicate Clear(b: Blob, p: nat, n: Node, names: map<seq<Byte>, U32>)
    requires Printable(n, names)
    decreases n, |n.children| + 1
  {
    var name, ps := |Padded(n.name + [0])|, |PrintProperties(n.properties, names)|;
    AllChildren(n);
    && (n.properties != [] || n.children != [] ==> b.Near(p + 4 + RoundUp(|n.name|)))
    && ClearProperties(b, p + 4 + name, n.properties, names)
    && (n.children != [] ==>
          && (n.properties != [] ==> b.Near(p + 4 + name + ps))
          && ClearIn(b, p + 4 + name + ps, n, n.children, names))
  }

  ghost predicate ClearIn(b: Blob, p: nat, parent: Node, cs: seq<Node>, names: map<seq<Byte>, U32>)
    requires cs != [] && ChildrenOf(parent, cs) && forall i | 0 <= i < |cs| :: Printable(cs[i], names)
    decreases parent, |cs|
  {
    OneOf(parent, cs);
    if |cs| == 1 then Clear(b, p, cs[0], names)
    else
      && b.Near(p + LastEnd(cs[0], names))
      && ClearIn(b, p + |PrintNode(cs[0], names)|, parent, cs[1..], names)
  }

  lemma {:induction false} LastPropertyInside(ps: seq<Property>, names: map<seq<Byte>, U32>)
    requires ps != [] && forall i | 0 <= i < |ps| :: ps[i].name in names && |ps[i].value| < 0x1_0000_0000
    ensures LastProperty(ps, names) < |PrintProperties(ps, names)|
    decreases |ps|
  {
    PropertiesAre(ps, names);
    if |ps| > 1 {
      LastPropertyInside(ps[1..], names);
    }
    hide PrintProperty, PrintProperties;
  }

  /** The places of a node lie inside it. */
  lemma {:induction false} PlacesInside(n: Node, names: map<seq<Byte>, U32>)
    requires Printable(n, names)
    ensures Reach(n, names) <= LastContent(n, names) && LastContent(n, names) + 4 < |PrintNode(n, names)|
    ensures LastEnd(n, names) + 4 <= |PrintNode(n, names)|
    decreases n, |n.children| + 1
  {
    NodeIs(n, names);
    AllChildren(n);
    NamePlaceLast(n.name);
    if n.children != [] {
      ChildPlacesInside(n, n.children, names);
    } else if n.properties != [] {
      LastPropertyInside(n.properties, names);
    }
    hide PrintNode, PrintProperties, PrintChildren, LastChild, LastEndIn, ReachIn, LastProperty, Printable, Padded,
         RoundUp;
  }

  lemma {:induction false} ChildPlacesInside(parent: Node, cs: seq<Node>, names: map<seq<Byte>, U32>)
    requires cs != [] && ChildrenOf(parent, cs) && forall i | 0 <= i < |cs| :: Printable(cs[i], names)
    ensures ReachIn(parent, cs, names) <= LastChild(parent, cs, names) < |PrintChildren(cs, names)|
    ensures LastEndIn(parent, cs, names) + 4 <= |PrintChildren(cs, names)|
    decreases parent, |cs|
  {
    ChildrenAre(cs, names);
    OneOf(parent, cs);
    PlacesInside(cs[0], names);
    if |cs| > 1 {
      ChildPlacesInside(parent, cs[1..], names);
    }
    hide PrintNode, PrintChildren, LastContent, LastEnd, Reach, Printable;
  }

  lemma {:induction false} NearClearProperties(b: Blob, p: nat, ps: seq<Property>, names: map<seq<Byte>, U32>)
    requires forall i | 0 <= i < |ps| :: ps[i].name in names && |ps[i].value| < 0x1_0000_0000
    requires ps != [] ==> b.Near(p + |PrintProperties(ps, names)|)
    ensures ClearProperties(b, p, ps, names)
    decreases |ps|
  {
    if |ps| > 1 {
      PropertiesAre(ps, names);
      NearClearProperties(b, p + |PrintProperty(ps[0], names)|, ps[1..], names);
    }
    hide PrintProperty, PrintProperties;
  }

  /** Where the last of them ends below 4 GiB, all of them do. */
  lemma {:induction false} NearClear(b: Blob, p: nat, n: Node, names: map<seq<Byte>, U32>)
    requires Printable(n, names) && b.Near(p + LastEnd(n, names))
    ensures Clear(b, p, n, names)
    decreases n, |n.children| + 1
  {
    hide *;
    NodeIs(n, names);
    PlacesAre(b, p, n, names);
    var p2, last := p + 4 + |Padded(n.name + [0])|, p + LastEnd(n, names);
    var p3 := p2 + |PrintProperties(n.properties, names)|;
    NearBelow(b, p + 4 + RoundUp(|n.name|), last);
    if n.properties != [] {
      NearBelow(b, p3, last);
    }
    NearClearProperties(b, p2, n.properties, names);
    if n.children != [] {
      NearClearIn(b, p3, n, n.children, names);
    }
  }

  lemma {:induction false} NearClearIn(b: Blob, p: nat, parent: Node, cs: seq<Node>, names: map<seq<Byte>, U32>)
    requires cs != [] && ChildrenOf(parent, cs) && forall i | 0 <= i < |cs| :: Printable(cs[i], names)
    requires b.Near(p + LastEndIn(parent, cs, names))
    ensures ClearIn(b, p, parent, cs, names)
    decreases parent, |cs|
  {
    hide *;
    ChildPlacesAre(b, p, parent, cs, names);
    if |cs| == 1 {
      NearClear(b, p, cs[0], names);
    } else {
      NearBelow(b, p + LastEnd(cs[0], names), p + LastEndIn(parent, cs, names));
      NearClearIn(b, p + |PrintNode(cs[0], names)|, parent, cs[1..], names);
    }
  }

  // ----- names -----

  lemma NamePlaceLast(name: seq<Byte>)
    ensures LastName(name) == (if WholeWords(|name|) then |name| else 0)
    ensures LastName(name) < |Padded(name + [0])| && RoundUp(|name|) <= |Padded(name + [0])|
  {
  }

  lemma NamePlace(p: nat, n: nat)
    requires WholeWords(p)
    ensures RoundUp(n + 1) >= 4 && RoundUp(p + n) == p + RoundUp(n)
    ensures WholeWords(n) ==> RoundUp(n) == n && p + RoundUp(n + 1) == p + n + 4
    ensures !WholeWords(n) ==> RoundUp(n) == RoundUp(n + 1)
  {
  }

  lemma {:induction false} NamePrinted(bytes: seq<Byte>, p: nat, name: seq<Byte>)
    requires WholeWords(p) && 0 !in name && At(bytes, p, Padded(name + [0]))
    ensures CString(bytes, p) == Some(name) && WordAt(bytes, p).Some?
    ensures WholeWords(|name|) ==> WordAt(bytes, p + |name|) == Some(0)
  {
    var all := name + [0];
    AtParts(bytes, p, all, Zeros(RoundUp(|all|) - |all|));
    CStringIs(bytes, p, name);
    NamePlace(p, |name|);
    if WholeWords(|name|) {
      assert Padded(all) == name + Be32(0);
      AtParts(bytes, p, name, Be32(0));
      WordPrinted(bytes, p + |name|, 0);
    }
  }

  /** The name of a node: its NUL is passed over by the alignment, or read as a zero word and skipped. */
  lemma {:induction false} NameParses(b: Blob, limit: nat, entry: nat, node: Node, p: nat, name: seq<Byte>)
    requires b.Placed() && entry < p && WholeWords(p) && 0 !in name && At(b.bytes, p, Padded(name + [0]))
    requires p + LastName(name) < limit && b.Near(p + RoundUp(|name|))
    ensures Loop(b, limit, entry, BeginNode, node, p) ==
            Loop(b, limit, entry, NodeName, node.(name := name), p + |Padded(name + [0])|)
  {
    NamePlaceLast(name);
    hide *;
    PlacedFits(b);
    NamePrinted(b.bytes, p, name);
    NamePlace(p, |name|);
    OnName(b, limit, entry, node, p, name);
    AlignedIs(b, p + |name|);
    if WholeWords(|name|) {
      OnZero(b, limit, entry, node.(name := name), p + |name|);
    }
  }

  /** A name that is read, but behind which the parser is out: by the limit, or at 4 GiB. */
  lemma {:induction false} NameLast(b: Blob, limit: nat, entry: nat, node: Node, p: nat, name: seq<Byte>)
    requires b.Placed() && entry < p && WholeWords(p) && 0 !in name && At(b.bytes, p, Padded(name + [0]))
    requires p < limit < 0x1_0000_0000 && !(p + LastName(name) < limit && b.Near(p + RoundUp(|name|)))
    ensures var r := Loop(b, limit, entry, BeginNode, node, p);
            && r.Parsed? && r.node == node.(name := name) && limit <= r.offset
            && (r.offset < p + |Padded(name + [0])| || r.offset >= 0x1_0000_0000)
  {
    hide *;
    PlacedFits(b);
    NamePlaceLast(name);
    NamePrinted(b.bytes, p, name);
    NamePlace(p, |name|);
    OnName(b, limit, entry, node, p, name);
    AlignedIs(b, p + |name|);
    OnLimit(b, limit, entry, NodeName, node.(name := name), Aligned(b, p + |name|));
  }

  // ----- properties -----

  lemma PropertyIs(p: Property, names: map<seq<Byte>, U32>)
    requires p.name in names && |p.value| < 0x1_0000_0000
    ensures PrintProperty(p, names)
         == Be32(PROP) + (Be32(|p.value|) + (Be32(names[p.name]) + (p.value + Zeros(RoundUp(|p.value|) - |p.value|))))
  {
  }

  lemma PropertyAtIs(b: Blob, p: nat, prop: Property, nameAt: U32)
    requires |prop.value| < 0x1_0000_0000 && CString(b.bytes, b.strings + nameAt) == Some(prop.name)
    requires WordAt(b.bytes, p) == Some(|prop.value|) && WordAt(b.bytes, p + 4) == Some(nameAt)
    requires At(b.bytes, p + 8, prop.value)
    ensures PropertyAt(b, p) == Some(prop)
  {
    hide WordAt, CString;
  }

  lemma {:induction false} PropertyPrinted(b: Blob, p: nat, prop: Property, names: map<seq<Byte>, U32>)
    requires prop.name in names && |prop.value| < 0x1_0000_0000
    requires CString(b.bytes, b.strings + names[prop.name]) == Some(prop.name)
    requires At(b.bytes, p, PrintProperty(prop, names))
    ensures WordAt(b.bytes, p) == Some(PROP) && PropertyAt(b, p + 4) == Some(prop)
  {
    var nameAt: U32 := names[prop.name];
    hide *;
    PropertyIs(prop, names);
    var zeros := Zeros(RoundUp(|prop.value|) - |prop.value|);
    AtParts(b.bytes, p, Be32(PROP), Be32(|prop.value|) + (Be32(nameAt) + (prop.value + zeros)));
    AtParts(b.bytes, p + 4, Be32(|prop.value|), Be32(nameAt) + (prop.value + zeros));
    AtParts(b.bytes, p + 8, Be32(nameAt), prop.value + zeros);
    AtParts(b.bytes, p + 12, prop.value, zeros);
    WordPrinted(b.bytes, p, PROP);
    WordPrinted(b.bytes, p + 4, |prop.value|);
    WordPrinted(b.bytes, p + 8, nameAt);
    PropertyAtIs(b, p + 4, prop, nameAt);
  }

  /** The strings block holds every name where `names` says. */
  ghost predicate StringsHold(b: Blob, names: map<seq<Byte>, U32>) {
    forall name | name in names :: CString(b.bytes, b.strings + names[name]) == Some(name)
  }

  lemma NameHeld(b: Blob, names: map<seq<Byte>, U32>, name: seq<Byte>)
    requires StringsHold(b, names) && name in names
    ensures CString(b.bytes, b.strings + names[name]) == Some(name)
  {
  }

  lemma FirstMoved<T>(before: seq<T>, s: seq<T>)
    requires s != []
    ensures before + [s[0]] + s[1..] == before + s
  {
  }

  lemma LastPropertyIs(ps: seq<Property>, names: map<seq<Byte>, U32>)
    requires ps != [] && forall i | 0 <= i < |ps| :: ps[i].name in names && |ps[i].value| < 0x1_0000_0000
    ensures LastProperty(ps, names) >= 4 && (|ps| == 1 ==> LastProperty(ps, names) == 4)
    ensures |ps| > 1 ==> LastProperty(ps, names) == |PrintProperty(ps[0], names)| + LastProperty(ps[1..], names)
  {
  }

  lemma PropertiesAre(ps: seq<Property>, names: map<seq<Byte>, U32>)
    requires forall i | 0 <= i < |ps| :: ps[i].name in names && |ps[i].value| < 0x1_0000_0000
    ensures PrintProperties(ps, names)
         == if ps == [] then [] else PrintProperty(ps[0], names) + PrintProperties(ps[1..], names)
  {
  }

  lemma PropertyPlace(p: nat, n: nat)
    requires WholeWords(p)
    ensures RoundUp(p + 12 + n) == p + 12 + RoundUp(n)
  {
  }

  /** The first of some properties is read, and the cursor aligned behind it. */
  lemma {:induction false} FirstProperty(b: Blob, limit: nat, entry: nat, node: Node, p: nat, ps: seq<Property>,
                                         names: map<seq<Byte>, U32>)
    requires b.Placed() && StringsHold(b, names) && entry < p && WholeWords(p)
    requires ps != [] && forall i | 0 <= i < |ps| :: ps[i].name in names && |ps[i].value| < 0x1_0000_0000
    requires At(b.bytes, p, PrintProperties(ps, names)) && p + 4 < limit
    ensures var q := p + |PrintProperty(ps[0], names)|;
            && At(b.bytes, q, PrintProperties(ps[1..], names)) && WholeWords(q)
            && p + 12 + |ps[0].value| <= |b.bytes|
            && Loop(b, limit, entry, NodeName, node, p) ==
               Loop(b, limit, entry, NodeName, node.(properties := node.properties + [ps[0]]),
                    Aligned(b, p + 12 + |ps[0].value|))
            && if b.Near(q) then Aligned(b, p + 12 + |ps[0].value|) == q
               else Aligned(b, p + 12 + |ps[0].value|) >= 0x1_0000_0000
  {
    hide *;
    PlacedFits(b);
    PropertiesAre(ps, names);
    AtParts(b.bytes, p, PrintProperty(ps[0], names), PrintProperties(ps[1..], names));
    NameHeld(b, names, ps[0].name);
    PropertyPrinted(b, p, ps[0], names);
    PropertyPlace(p, |ps[0].value|);
    OnProp(b, limit, entry, node, p, ps[0]);
    AlignedIs(b, p + 12 + |ps[0].value|);
    WordsAdd(p, |PrintProperty(ps[0], names)|);
  }

  lemma {:induction false} PropertiesParse(b: Blob, limit: nat, entry: nat, node: Node, p: nat, ps: seq<Property>,
                                           names: map<seq<Byte>, U32>)
    requires b.Placed() && StringsHold(b, names) && entry < p && WholeWords(p)
    requires forall i | 0 <= i < |ps| :: ps[i].name in names && |ps[i].value| < 0x1_0000_0000
    requires At(b.bytes, p, PrintProperties(ps, names))
    requires ps != [] ==> p + LastProperty(ps, names) < limit && b.Near(p + |PrintProperties(ps, names)|)
    ensures Loop(b, limit, entry, NodeName, node, p) ==
            Loop(b, limit, entry, NodeName, node.(properties := node.properties + ps), p + |PrintProperties(ps, names)|)
    decreases |ps|
  {
    hide *;
    PlacedFits(b);
    PropertiesAre(ps, names);
    if ps == [] {
      assert node.properties + ps == node.properties;
    } else {
      var q := p + |PrintProperty(ps[0], names)|;
      LastPropertyIs(ps, names);
      FirstProperty(b, limit, entry, node, p, ps, names);
      NearBelow(b, q, p + |PrintProperties(ps, names)|);
      PropertiesParse(b, limit, entry, node.(properties := node.properties + [ps[0]]), q, ps[1..], names);
      FirstMoved(node.properties, ps);
    }
  }

  /** Properties of which the last is read, but behind which the parser is out, at 4 GiB. */
  lemma {:induction false} PropertiesLast(b: Blob, limit: nat, entry: nat, node: Node, p: nat, ps: seq<Property>,
                                          names: map<seq<Byte>, U32>)
    requires b.Placed() && StringsHold(b, names) && entry < p && WholeWords(p)
    requires ps != [] && forall i | 0 <= i < |ps| :: ps[i].name in names && |ps[i].value| < 0x1_0000_0000
    requires At(b.bytes, p, PrintProperties(ps, names)) && p + LastProperty(ps, names) < limit < 0x1_0000_0000
    requires ClearProperties(b, p, ps, names) && !b.Near(p + |PrintProperties(ps, names)|)
    ensures var r := Loop(b, limit, entry, NodeName, node, p);
            r.Parsed? && r.node == node.(properties := node.properties + ps) && r.offset >= 0x1_0000_0000
    decreases |ps|
  {
    hide *;
    ClearPropertiesIs(b, p, ps, names);
    PlacedFits(b);
    PropertiesAre(ps, names);
    LastPropertyIs(ps, names);
    FirstProperty(b, limit, entry, node, p, ps, names);
    var next, q := node.(properties := node.properties + [ps[0]]), p + |PrintProperty(ps[0], names)|;
    FirstMoved(node.properties, ps);
    if |ps| == 1 {
      PropertiesAre(ps[1..], names);
      OnLimit(b, limit, entry, NodeName, next, Aligned(b, p + 12 + |ps[0].value|));
    } else {
      PropertiesLast(b, limit, entry, next, q, ps[1..], names);
    }
  }

  lemma ClearPropertiesIs(b: Blob, p: nat, ps: seq<Property>, names: map<seq<Byte>, U32>)
    requires forall i | 0 <= i < |ps| :: ps[i].name in names && |ps[i].value| < 0x1_0000_0000
    ensures var q := if ps == [] then p else p + |PrintProperty(ps[0], names)|;
            ClearProperties(b, p, ps, names) <==> |ps| > 1 ==> b.Near(q) && ClearProperties(b, q, ps[1..], names)
  {
  }

  /** Properties of which the last is not read: by the limit, or because another one ends at 4 GiB. */
  lemma {:induction false} PropertiesShort(b: Blob, limit: nat, entry: nat, node: Node, p: nat, ps: seq<Property>,
                                           names: map<seq<Byte>, U32>) returns (k: nat)
    requires b.Placed() && StringsHold(b, names) && entry < p && WholeWords(p)
    requires ps != [] && forall i | 0 <= i < |ps| :: ps[i].name in names && |ps[i].value| < 0x1_0000_0000
    requires At(b.bytes, p, PrintProperties(ps, names)) && limit < 0x1_0000_0000
    requires !(p + LastProperty(ps, names) < limit && ClearProperties(b, p, ps, names))
    ensures k < |ps|
    ensures var r := Loop(b, limit, entry, NodeName, node, p);
            && r.Parsed? && r.node == node.(properties := node.properties + ps[..k]) && limit <= r.offset
            && (r.offset < p + |PrintProperties(ps, names)| || r.offset >= 0x1_0000_0000)
    decreases |ps|
  {
    hide *;
    ClearPropertiesIs(b, p, ps, names);
    PlacedFits(b);
    PropertiesAre(ps, names);
    LastPropertyIs(ps, names);
    assert node.properties + ps[..0] == node.properties;
    k := 0;
    if limit <= p {
      OnLimit(b, limit, entry, NodeName, node, p);
      FirstIsLong(ps, names);
    } else if limit <= p + 4 {
      FirstToken(b.bytes, p, ps, names);
      OnPropToken(b, limit, entry, node, p);
      OnLimit(b, limit, entry, InProp, node, p + 4);
      FirstIsLong(ps, names);
    } else if |ps| > 1 {
      FirstProperty(b, limit, entry, node, p, ps, names);
      var next, q := node.(properties := node.properties + [ps[0]]), p + |PrintProperty(ps[0], names)|;
      if b.Near(q) {
        var j := PropertiesShort(b, limit, entry, next, q, ps[1..], names);
        k := j + 1;
        assert node.properties + [ps[0]] + ps[1..][..j] == node.properties + ps[..k];
      } else {
        OnLimit(b, limit, entry, NodeName, next, Aligned(b, p + 12 + |ps[0].value|));
        k := 1;
        assert ps[..1] == [ps[0]];
      }
    }
  }

  lemma FirstIsLong(ps: seq<Property>, names: map<seq<Byte>, U32>)
    requires ps != [] && forall i | 0 <= i < |ps| :: ps[i].name in names && |ps[i].value| < 0x1_0000_0000
    ensures |PrintProperties(ps, names)| >= 12
  {
    PropertiesAre(ps, names);
    hide PrintProperties;
  }

  lemma FirstToken(bytes: seq<Byte>, p: nat, ps: seq<Property>, names: map<seq<Byte>, U32>)
    requires ps != [] && forall i | 0 <= i < |ps| :: ps[i].name in names && |ps[i].value| < 0x1_0000_0000
    requires At(bytes, p, PrintProperties(ps, names))
    ensures WordAt(bytes, p) == Some(PROP)
  {
    hide *;
    PropertiesAre(ps, names);
    AtParts(bytes, p, PrintProperty(ps[0], names), PrintProperties(ps[1..], names));
    PropertyIs(ps[0], names);
    var value, nameAt: U32 := ps[0].value, names[ps[0].name];
    var rest := Be32(|value|) + (Be32(nameAt) + (value + Zeros(RoundUp(|value|) - |value|)));
    AtParts(bytes, p, Be32(PROP), rest);
    WordPrinted(bytes, p, PROP);
  }

  // ----- whole nodes -----

  lemma ChildrenAre(cs: seq<Node>, names: map<seq<Byte>, U32>)
    requires forall i | 0 <= i < |cs| :: Printable(cs[i], names)
    ensures PrintChildren(cs, names) == if cs == [] then [] else PrintNode(cs[0], names) + PrintChildren(cs[1..], names)
  {
  }

  lemma NodeIs(n: Node, names: map<seq<Byte>, U32>)
    requires Printable(n, names)
    ensures 0 !in n.name
    ensures forall i | 0 <= i < |n.properties| ::
              n.properties[i].name in names && |n.properties[i].value| < 0x1_0000_0000
    ensures forall i | 0 <= i < |n.children| :: Printable(n.children[i], names)
    ensures PrintNode(n, names)
         == Be32(BEGIN_NODE) + (Padded(n.name + [0]) + (PrintProperties(n.properties,
                   names) + (PrintChildren(n.children, names) + Be32(END_NODE))))
  {
  }

  lemma ParseIs(b: Blob, limit: nat, entry: nat)
    requires b.Fits()
    ensures Parse(b, limit, entry) == Loop(b, limit, entry, Start, Node([], [], []), entry)
  {
  }

  lemma FiveParts(bytes: seq<Byte>, p: nat, a: seq<Byte>, b: seq<Byte>, c: seq<Byte>, d: seq<Byte>, e: seq<Byte>)
    requires At(bytes, p, a + (b + (c + (d + e))))
    ensures At(bytes, p, a) && At(bytes, p + |a|, b) && At(bytes, p + |a| + |b|, c)
    ensures At(bytes, p + |a| + |b| + |c|, d) && At(bytes, p + |a| + |b| + |c| + |d|, e)
  {
    hide At;
    AtParts(bytes, p, a, b + (c + (d + e)));
    AtParts(bytes, p + |a|, b, c + (d + e));
    AtParts(bytes, p + |a| + |b|, c, d + e);
    AtParts(bytes, p + |a| + |b| + |c|, d, e);
  }

  lemma PartsOfNode(bytes: seq<Byte>, entry: nat, all: seq<Byte>, name: seq<Byte>, ps: seq<Byte>, cs: seq<Byte>)
    requires all == Be32(BEGIN_NODE) + (name + (ps + (cs + Be32(END_NODE)))) && At(bytes, entry, all)
    ensures WordAt(bytes, entry) == Some(BEGIN_NODE)
    ensures At(bytes, entry + 4, name) && At(bytes, entry + 4 + |name|, ps) && At(bytes, entry + 4 + |name| + |ps|, cs)
    ensures WordAt(bytes, entry + 4 + |name| + |ps| + |cs|) == Some(END_NODE)
    ensures |all| == 8 + |name| + |ps| + |cs|
  {
    hide *;
    FiveParts(bytes, entry, Be32(BEGIN_NODE), name, ps, cs, Be32(END_NODE));
    WordPrinted(bytes, entry, BEGIN_NODE);
    WordPrinted(bytes, entry + 4 + |name| + |ps| + |cs|, END_NODE);
  }

  lemma BeginsNode(bytes: seq<Byte>, p: nat, n: Node, names: map<seq<Byte>, U32>)
    requires Printable(n, names) && At(bytes, p, PrintNode(n, names))
    ensures WordAt(bytes, p) == Some(BEGIN_NODE)
  {
    NodeIs(n, names);
    hide *;
    PartsOfNode(bytes, p, PrintNode(n, names), Padded(n.name + [0]), PrintProperties(n.properties, names),
              PrintChildren(n.children, names));
  }

  /** The places of a node as the parser comes to them. */
  lemma PlacesAre(b: Blob, p: nat, n: Node, names: map<seq<Byte>, U32>)
    requires Printable(n, names)
    ensures ChildrenOf(n, n.children)
    ensures var name, ps := |Padded(n.name + [0])|, |PrintProperties(n.properties, names)|;
            && LastName(n.name) < name && RoundUp(|n.name|) <= name
            && (n.properties != [] ==> LastProperty(n.properties, names) < ps)
            && (n.properties == [] ==> ps == 0)
            && if n.children != [] then
                 && LastContent(n, names) == 4 + name + ps + LastChild(n, n.children, names)
                 && LastEnd(n, names) == 4 + name + ps + LastEndIn(n, n.children, names)
                 && Reach(n, names) == 4 + name + ps + ReachIn(n, n.children, names)
                 && (Clear(b, p, n, names) <==>
                       && b.Near(p + 4 + RoundUp(|n.name|)) && ClearProperties(b, p + 4 + name, n.properties, names)
                       && (n.properties != [] ==> b.Near(p + 4 + name + ps))
                       && ClearIn(b, p + 4 + name + ps, n, n.children, names))
               else if n.properties != [] then
                 && LastContent(n, names) == Reach(n, names) == 4 + name + LastProperty(n.properties, names)
                 && LastEnd(n, names) == 4 + name + ps
                 && (Clear(b, p, n, names) <==>
                       b.Near(p + 4 + RoundUp(|n.name|)) && ClearProperties(b, p + 4 + name, n.properties, names))
               else
                 && LastContent(n, names) == 4 + LastName(n.name) && LastEnd(n, names) == 4 + RoundUp(|n.name|)
                 && Reach(n, names) == (if n.name == [] then 0 else 4) && Clear(b, p, n, names)
  {
    hide LastName, LastProperty, LastChild, LastEndIn, ReachIn, ClearIn, ClearProperties, PrintProperties, Padded,
         RoundUp, Printable, WholeWords, Blob.Near;
    NamePlaceLast(n.name);
    AllChildren(n);
    NodeIs(n, names);
    PropertiesAre(n.properties, names);
    NoneClear(b, p + 4 + |Padded(n.name + [0])|, names);
    if n.properties != [] {
      LastPropertyInside(n.properties, names);
    }
  }

  lemma NoneClear(b: Blob, p: nat, names: map<seq<Byte>, U32>)
    ensures ClearProperties(b, p, [], names)
  {
  }

  /** The same for a list of children. */
  lemma ChildPlacesAre(b: Blob, p: nat, parent: Node, cs: seq<Node>, names: map<seq<Byte>, U32>)
    requires cs != [] && ChildrenOf(parent, cs) && forall i | 0 <= i < |cs| :: Printable(cs[i], names)
    ensures (parent decreases to cs[0]) && ChildrenOf(parent, cs[1..])
    ensures var c, rest := cs[0], cs[1..];
            && Reach(c, names) <= LastContent(c, names) && LastContent(c, names) + 4 < |PrintNode(c, names)|
            && LastEnd(c, names) + 4 <= |PrintNode(c, names)|
            && if rest == [] then
                 && LastChild(parent, cs, names) == LastContent(c, names)
                 && LastEndIn(parent, cs, names) == LastEnd(c, names)
                 && ReachIn(parent, cs, names) == Reach(c, names)
                 && (ClearIn(b, p, parent, cs, names) <==> Clear(b, p, c, names))
               else
                 var first := |PrintNode(c, names)|;
                 && LastChild(parent, cs, names) == first + LastChild(parent, rest, names)
                 && LastEndIn(parent, cs, names) == first + LastEndIn(parent, rest, names)
                 && ReachIn(parent, cs, names) == first + ReachIn(parent, rest, names)
                 && (ClearIn(b, p, parent, cs, names) <==>
                       b.Near(p + LastEnd(c, names)) && ClearIn(b, p + first, parent, rest, names))
  {
    OneOf(parent, cs);
    PlacesInside(cs[0], names);
    hide LastContent, LastEnd, Reach, Clear, PrintNode, Printable;
  }

  lemma {:induction false} ChildrenParse(b: Blob, limit: nat, entry: nat, node: Node, p: nat, parent: Node,
                                         cs: seq<Node>, names: map<seq<Byte>, U32>)
    requires b.Placed() && StringsHold(b, names) && entry < p && WholeWords(p)
    requires ChildrenOf(parent, cs) && forall i | 0 <= i < |cs| :: Printable(cs[i], names)
    requires At(b.bytes, p, PrintChildren(cs, names))
    requires cs != [] ==> p + LastChild(parent, cs, names) < limit && b.Near(p + LastEndIn(parent, cs, names))
    ensures Loop(b, limit, entry, NodeName, node, p) ==
            Loop(b, limit, entry, NodeName, node.(children := node.children + cs), p + |PrintChildren(cs, names)|)
    decreases parent, |cs|
  {
    hide *;
    PlacedFits(b);
    ChildrenAre(cs, names);
    if cs == [] {
      assert node.children + cs == node.children;
    } else {
      var first, rest := PrintNode(cs[0], names), PrintChildren(cs[1..], names);
      AtParts(b.bytes, p, first, rest);
      ChildPlacesAre(b, p, parent, cs, names);
      NearBelow(b, p + LastEnd(cs[0], names), p + LastEndIn(parent, cs, names));
      PrintedParses(b, limit, p, cs[0], names);
      OnChild(b, limit, entry, node, p, cs[0], p + |first| - 4);
      WordsAdd(p, |first|);
      var next := node.(children := node.children + [cs[0]]);
      ChildrenParse(b, limit, entry, next, p + |first|, parent, cs[1..], names);
      FirstMoved(node.children, cs);
    }
  }

  /**
    Printing a tree and parsing it gives the tree back: names, property values, child order. The parser is left
    on the node's END_NODE token. The limit has to lie beyond the last name or property in it, and the end of
    that below 4 GiB.
   */
  lemma {:induction false} PrintedParses(b: Blob, limit: nat, entry: nat, n: Node, names: map<seq<Byte>, U32>)
    requires b.Placed() && StringsHold(b, names) && WholeWords(entry) && Printable(n, names)
    requires At(b.bytes, entry, PrintNode(n, names))
    requires entry + LastContent(n, names) < limit && b.Near(entry + LastEnd(n, names))
    ensures Parse(b, limit, entry) == Parsed(n, entry + |PrintNode(n, names)| - 4)
    ensures WordAt(b.bytes, entry) == Some(BEGIN_NODE)
    decreases n, |n.children| + 1
  {
    hide *;
    PlacedFits(b);
    NodeIs(n, names);
    var name, ps, cs := Padded(n.name + [0]), PrintProperties(n.properties, names), PrintChildren(n.children, names);
    var p1 := entry + 4;
    var p2 := p1 + |name|;
    var p3 := p2 + |ps|;
    PartsOfNode(b.bytes, entry, PrintNode(n, names), name, ps, cs);
    PlacesAre(b, entry, n, names);
    NodeWords(entry, name, ps);
    ParseIs(b, limit, entry);
    OnStart(b, limit, entry, Node([], [], []), entry);
    NearBelow(b, p1 + RoundUp(|n.name|), entry + LastEnd(n, names));
    NameParses(b, limit, entry, Node([], [], []), p1, n.name);
    if n.properties != [] {
      NearBelow(b, p3, entry + LastEnd(n, names));
    }
    PropertiesParse(b, limit, entry, Node(n.name, [], []), p2, n.properties, names);
    assert [] + n.properties == n.properties;
    ChildrenParse(b, limit, entry, Node(n.name, n.properties, []), p3, n, n.children, names);
    assert [] + n.children == n.children;
    NodeEnds(b, limit, entry, n, p3 + |cs|);
  }

  lemma NodeWords(entry: nat, name: seq<Byte>, ps: seq<Byte>)
    requires WholeWords(entry) && WholeWords(|name|) && WholeWords(|ps|)
    ensures WholeWords(entry + 4) && WholeWords(entry + 4 + |name|) && WholeWords(entry + 4 + |name| + |ps|)
  {
  }

  lemma NodeEnds(b: Blob, limit: nat, entry: nat, node: Node, p: nat)
    requires b.Fits() && entry < p && WordAt(b.bytes, p) == Some(END_NODE)
    ensures Loop(b, limit, entry, NodeName, node, p) == Parsed(node, p)
  {
    hide *;
    if p < limit {
      OnEnd(b, limit, entry, node, p);
    } else {
      OnLimit(b, limit, entry, NodeName, node, p);
    }
  }

  // ----- trees that are read while the parser runs out -----

  /** The parser gets through the whole node, and is left on its END_NODE token. */
  ghost predicate Through(b: Blob, limit: nat, entry: nat, n: Node, names: map<seq<Byte>, U32>)
    requires Printable(n, names)
  {
    entry + LastContent(n, names) < limit && b.Near(entry + LastEnd(n, names))
  }

  /** The parser gets to the last thing the tree is made of. */
  ghost predicate Reached(b: Blob, limit: nat, entry: nat, n: Node, names: map<seq<Byte>, U32>)
    requires Printable(n, names)
  {
    entry + Reach(n, names) < limit && Clear(b, entry, n, names)
  }

  lemma ThroughIs(b: Blob, limit: nat, entry: nat, n: Node, names: map<seq<Byte>, U32>)
    requires Printable(n, names)
    ensures Through(b, limit, entry, n, names) <==>
              entry + LastContent(n, names) < limit && b.Near(entry + LastEnd(n, names))
    ensures Reached(b, limit, entry, n, names) <==>
              entry + Reach(n, names) < limit && Clear(b, entry, n, names)
    ensures Through(b, limit, entry, n, names) ==> Reached(b, limit, entry, n, names)
  {
    PlacesInside(n, names);
    if Through(b, limit, entry, n, names) {
      NearClear(b, entry, n, names);
    }
    hide LastContent, LastEnd, Reach, Clear;
  }

  /** A tree that is read to its last name or property, behind which the parser is out. */
  lemma {:induction false} TreeParses(b: Blob, limit: nat, entry: nat, n: Node, names: map<seq<Byte>, U32>)
    requires b.Placed() && StringsHold(b, names) && WholeWords(entry) && Printable(n, names)
    requires At(b.bytes, entry, PrintNode(n, names)) && limit < 0x1_0000_0000
    requires Reached(b, limit, entry, n, names) && !Through(b, limit, entry, n, names)
    ensures var r := Parse(b, limit, entry);
            && r.Parsed? && r.node == n && limit <= r.offset
            && (r.offset < entry + |PrintNode(n, names)| - 4 || r.offset >= 0x1_0000_0000)
    decreases n, |n.children| + 1
  {
    hide *;
    PlacedFits(b);
    NodeIs(n, names);
    ThroughIs(b, limit, entry, n, names);
    var name, ps, cs := Padded(n.name + [0]), PrintProperties(n.properties, names), PrintChildren(n.children, names);
    var none, p1 := Node([], [], []), entry + 4;
    var p2 := p1 + |name|;
    var p3 := p2 + |ps|;
    PartsOfNode(b.bytes, entry, PrintNode(n, names), name, ps, cs);
    PlacesAre(b, entry, n, names);
    NodeWords(entry, name, ps);
    ParseIs(b, limit, entry);
    OnStart(b, limit, entry, none, entry);
    if n.properties == [] && n.children == [] {
      if limit <= p1 {
        OnLimit(b, limit, entry, BeginNode, none, p1);
      } else {
        NameLast(b, limit, entry, none, p1, n.name);
      }
    } else {
      NameParses(b, limit, entry, none, p1, n.name);
      if n.children == [] {
        PropertiesLast(b, limit, entry, Node(n.name, [], []), p2, n.properties, names);
        assert [] + n.properties == n.properties;
      } else {
        PropertiesParse(b, limit, entry, Node(n.name, [], []), p2, n.properties, names);
        assert [] + n.properties == n.properties;
        ChildrenReached(b, limit, entry, Node(n.name, n.properties, []), p3, n, n.children, names);
        assert [] + n.children == n.children;
      }
    }
  }

  lemma {:induction false} ChildrenReached(b: Blob, limit: nat, entry: nat, node: Node, p: nat, parent: Node,
                                           cs: seq<Node>, names: map<seq<Byte>, U32>)
    requires b.Placed() && StringsHold(b, names) && entry < p && WholeWords(p)
    requires cs != [] && ChildrenOf(parent, cs) && forall i | 0 <= i < |cs| :: Printable(cs[i], names)
    requires At(b.bytes, p, PrintChildren(cs, names)) && limit < 0x1_0000_0000
    requires p + ReachIn(parent, cs, names) < limit && ClearIn(b, p, parent, cs, names)
    requires !(p + LastChild(parent, cs, names) < limit && b.Near(p + LastEndIn(parent, cs, names)))
    ensures var r := Loop(b, limit, entry, NodeName, node, p);
            && r.Parsed? && r.node == node.(children := node.children + cs) && limit <= r.offset
            && (r.offset < p + |PrintChildren(cs, names)| || r.offset >= 0x1_0000_0000)
    decreases parent, |cs|
  {
    hide *;
    PlacedFits(b);
    ChildrenAre(cs, names);
    ChildPlacesAre(b, p, parent, cs, names);
    ThroughIs(b, limit, p, cs[0], names);
    var first, rest := PrintNode(cs[0], names), PrintChildren(cs[1..], names);
    AtParts(b.bytes, p, first, rest);
    BeginsNode(b.bytes, p, cs[0], names);
    var next := node.(children := node.children + [cs[0]]);
    if |cs| == 1 {
      assert cs == [cs[0]];
      TreeParses(b, limit, p, cs[0], names);
      var q := Parse(b, limit, p).offset;
      OnChild(b, limit, entry, node, p, cs[0], q);
      OnLimit(b, limit, entry, NodeName, next, q + 4);
    } else {
      PrintedParses(b, limit, p, cs[0], names);
      OnChild(b, limit, entry, node, p, cs[0], p + |first| - 4);
      WordsAdd(p, |first|);
      ChildrenReached(b, limit, entry, next, p + |first|, parent, cs[1..], names);
      FirstMoved(node.children, cs);
    }
  }

  // ----- trees that are cut -----

  /** A tree whose last name or property is not reached does not come back. */
  lemma {:induction false} TreeCut(b: Blob, limit: nat, entry: nat, n: Node, names: map<seq<Byte>, U32>)
    requires b.Placed() && StringsHold(b, names) && WholeWords(entry) && Printable(n, names)
    requires At(b.bytes, entry, PrintNode(n, names)) && limit < 0x1_0000_0000
    requires !Reached(b, limit, entry, n, names)
    ensures var r := Parse(b, limit, entry);
            && r.Parsed? && (n != Node([], [], []) ==> r.node != n) && limit <= r.offset
            && (r.offset < entry + |PrintNode(n, names)| - 4 || r.offset >= 0x1_0000_0000)
    decreases n, |n.children| + 1
  {
    hide *;
    PlacedFits(b);
    NodeIs(n, names);
    ThroughIs(b, limit, entry, n, names);
    var name, ps, cs := Padded(n.name + [0]), PrintProperties(n.properties, names), PrintChildren(n.children, names);
    var none, p1 := Node([], [], []), entry + 4;
    var p2 := p1 + |name|;
    PartsOfNode(b.bytes, entry, PrintNode(n, names), name, ps, cs);
    PlacesAre(b, entry, n, names);
    NodeWords(entry, name, ps);
    ParseIs(b, limit, entry);
    if limit <= entry {
      OnLimit(b, limit, entry, Start, none, entry);
    } else {
      OnStart(b, limit, entry, none, entry);
      if limit <= p1 {
        OnLimit(b, limit, entry, BeginNode, none, p1);
      } else if n.properties != [] || n.children != [] {
        if p1 + LastName(n.name) < limit && b.Near(p1 + RoundUp(|n.name|)) {
          NameParses(b, limit, entry, none, p1, n.name);
          ContentsCut(b, limit, entry, p2, n, names);
        } else {
          NameLast(b, limit, entry, none, p1, n.name);
        }
      }
    }
  }

  /** The same behind the name. */
  lemma {:induction false} ContentsCut(b: Blob, limit: nat, entry: nat, p: nat, n: Node, names: map<seq<Byte>, U32>)
    requires b.Placed() && StringsHold(b, names) && entry < p && WholeWords(p) && Printable(n, names)
    requires ChildrenOf(n, n.children) && (n.properties != [] || n.children != []) && limit < 0x1_0000_0000
    requires var ps := PrintProperties(n.properties, names);
             && At(b.bytes, p, ps) && At(b.bytes, p + |ps|, PrintChildren(n.children, names))
             && (n.children == [] ==>
                   !(p + LastProperty(n.properties, names) < limit && ClearProperties(b, p, n.properties, names)))
             && (n.children != [] ==>
                   !(&& ClearProperties(b, p, n.properties, names) && (n.properties != [] ==> b.Near(p + |ps|))
                     && p + |ps| + ReachIn(n, n.children, names) < limit && ClearIn(b, p + |ps|, n, n.children, names)))
    ensures var r := Loop(b, limit, entry, NodeName, Node(n.name, [], []), p);
            && r.Parsed? && r.node != n && limit <= r.offset
            && (r.offset < p + |PrintProperties(n.properties, names)| + |PrintChildren(n.children, names)|
                || r.offset >= 0x1_0000_0000)
    decreases n, |n.children|, 2
  {
    hide *;
    PlacedFits(b);
    NodeIs(n, names);
    var node, ps := Node(n.name, [], []), PrintProperties(n.properties, names);
    assert [] + n.properties == n.properties;
    if n.properties != [] {
      LastPropertyInside(n.properties, names);
      if !(p + LastProperty(n.properties, names) < limit && ClearProperties(b, p, n.properties, names)) {
        var k := PropertiesShort(b, limit, entry, node, p, n.properties, names);
      } else if !b.Near(p + |ps|) {
        PropertiesLast(b, limit, entry, node, p, n.properties, names);
      } else {
        PropertiesParse(b, limit, entry, node, p, n.properties, names);
        WordsAdd(p, |ps|);
        ChildrenShort(b, limit, entry, Node(n.name, n.properties, []), p + |ps|, n, n.children, names);
      }
    } else {
      PropertiesParse(b, limit, entry, node, p, n.properties, names);
      WordsAdd(p, |ps|);
      NearClearProperties(b, p, [], names);
      ChildrenShort(b, limit, entry, Node(n.name, n.properties, []), p + |ps|, n, n.children, names);
    }
  }

  lemma {:induction false} ChildrenShort(b: Blob, limit: nat, entry: nat, node: Node, p: nat, parent: Node,
                                         cs: seq<Node>, names: map<seq<Byte>, U32>)
    requires b.Placed() && StringsHold(b, names) && entry < p && WholeWords(p)
    requires cs != [] && ChildrenOf(parent, cs) && forall i | 0 <= i < |cs| :: Printable(cs[i], names)
    requires At(b.bytes, p, PrintChildren(cs, names)) && limit < 0x1_0000_0000
    requires !(p + ReachIn(parent, cs, names) < limit && ClearIn(b, p, parent, cs, names))
    ensures var r := Loop(b, limit, entry, NodeName, node, p);
            && r.Parsed? && r.node.children != node.children + cs && limit <= r.offset
            && (r.offset < p + |PrintChildren(cs, names)| || r.offset >= 0x1_0000_0000)
    decreases parent, |cs|, 1
  {
    hide *;
    PlacedFits(b);
    ChildrenAre(cs, names);
    ChildPlacesAre(b, p, parent, cs, names);
    ThroughIs(b, limit, p, cs[0], names);
    var first, rest := PrintNode(cs[0], names), PrintChildren(cs[1..], names);
    AtParts(b.bytes, p, first, rest);
    BeginsNode(b.bytes, p, cs[0], names);
    FirstMoved(node.children, cs);
    if limit <= p {
      OnLimit(b, limit, entry, NodeName, node, p);
    } else if |cs| > 1 && Through(b, limit, p, cs[0], names) {
      PrintedParses(b, limit, p, cs[0], names);
      OnChild(b, limit, entry, node, p, cs[0], p + |first| - 4);
      WordsAdd(p, |first|);
      var next := node.(children := node.children + [cs[0]]);
      ChildrenShort(b, limit, entry, next, p + |first|, parent, cs[1..], names);
    } else {
      FirstChildShort(b, limit, entry, node, p, parent, cs, names);
    }
  }

  /** The parser runs out inside the first of some children, before it has all of it. */
  lemma {:induction false} FirstChildShort(b: Blob, limit: nat, entry: nat, node: Node, p: nat, parent: Node,
                                           cs: seq<Node>, names: map<seq<Byte>, U32>)
    requires b.Placed() && StringsHold(b, names) && entry < p < limit < 0x1_0000_0000 && WholeWords(p)
    requires cs != [] && ChildrenOf(parent, cs) && forall i | 0 <= i < |cs| :: Printable(cs[i], names)
    requires At(b.bytes, p, PrintChildren(cs, names))
    requires if |cs| > 1 then !Through(b, limit, p, cs[0], names)
             else !(p + ReachIn(parent, cs, names) < limit && ClearIn(b, p, parent, cs, names))
    ensures var r := Loop(b, limit, entry, NodeName, node, p);
            && r.Parsed? && r.node.children != node.children + cs && limit <= r.offset
            && (r.offset < p + |PrintChildren(cs, names)| || r.offset >= 0x1_0000_0000)
    decreases parent, |cs|, 0
  {
    hide *;
    PlacedFits(b);
    ChildrenAre(cs, names);
    ChildPlacesAre(b, p, parent, cs, names);
    ThroughIs(b, limit, p, cs[0], names);
    AtParts(b.bytes, p, PrintNode(cs[0], names), PrintChildren(cs[1..], names));
    BeginsNode(b.bytes, p, cs[0], names);
    if |cs| > 1 {
      NodeCut(b, limit, p, cs[0], names);
    } else {
      EmptyReached(b, limit, p, cs[0], names);
      TreeCut(b, limit, p, cs[0], names);
    }
    var r := Parse(b, limit, p);
    OnChild(b, limit, entry, node, p, r.node, r.offset);
    OnLimit(b, limit, entry, NodeName, node.(children := node.children + [r.node]), r.offset + 4);
    OneMore(node.children, r.node, cs);
  }

  lemma OneMore(before: seq<Node>, c: Node, cs: seq<Node>)
    requires cs != [] && (|cs| == 1 ==> c != cs[0])
    ensures before + [c] != before + cs
  {
    assert |cs| == 1 ==> (before + [c])[|before|] == c && (before + cs)[|before|] == cs[0];
  }

  lemma EmptyReached(b: Blob, limit: nat, entry: nat, n: Node, names: map<seq<Byte>, U32>)
    requires Printable(n, names) && entry < limit && !Reached(b, limit, entry, n, names)
    ensures n != Node([], [], [])
  {
    if n == Node([], [], []) {
      PlacesAre(b, entry, n, names);
    }
    hide LastContent, LastEnd, Clear, Reach;
  }

  /** A parser that does not get through a node stops at its limit or behind it. */
  lemma {:induction false} NodeCut(b: Blob, limit: nat, entry: nat, n: Node, names: map<seq<Byte>, U32>)
    requires b.Placed() && StringsHold(b, names) && WholeWords(entry) && Printable(n, names)
    requires At(b.bytes, entry, PrintNode(n, names)) && limit < 0x1_0000_0000
    requires !Through(b, limit, entry, n, names)
    ensures var r := Parse(b, limit, entry);
            && r.Parsed? && limit <= r.offset
            && (r.offset < entry + |PrintNode(n, names)| - 4 || r.offset >= 0x1_0000_0000)
    decreases n, |n.children| + 2
  {
    hide *;
    PlacedFits(b);
    if Reached(b, limit, entry, n, names) {
      TreeParses(b, limit, entry, n, names);
    } else {
      TreeCut(b, limit, entry, n, names);
    }
  }

  // ----- which trees come back -----

  /**
    The exact condition for a tree to come back, wherever its blob lies and wherever the parser is left: the
    limit lies beyond the last name or property, and every other one ends below 4 GiB. Without them only the
    empty root looks as if it had come back.
   */
  lemma {:induction false} TreeComesBackExactly(b: Blob, limit: U32, entry: nat, n: Node, names: map<seq<Byte>, U32>)
    requires b.Placed() && StringsHold(b, names) && WholeWords(entry) && Printable(n, names)
    requires At(b.bytes, entry, PrintNode(n, names))
    ensures var r := Parse(b, limit, entry);
            && r.Parsed?
            && (r.node == n <==>
                n == Node([], [], []) || (entry + Reach(n, names) < limit && Clear(b, entry, n, names)))
  {
    hide *;
    PlacedFits(b);
    ThroughIs(b, limit, entry, n, names);
    if Through(b, limit, entry, n, names) {
      PrintedParses(b, limit, entry, n, names);
    } else if Reached(b, limit, entry, n, names) {
      TreeParses(b, limit, entry, n, names);
    } else {
      TreeCut(b, limit, entry, n, names);
      if n == Node([], [], []) {
        EmptyRoot(b, limit, entry, names);
      }
    }
  }

  /** The empty root is what the parser starts from. */
  lemma EmptyRoot(b: Blob, limit: nat, entry: nat, names: map<seq<Byte>, U32>)
    requires b.Placed() && Printable(Node([], [], []), names) && !Reached(b, limit, entry, Node([], [], []), names)
    ensures b.Fits() && Parse(b, limit, entry) == Parsed(Node([], [], []), entry)
  {
    PlacesAre(b, entry, Node([], [], []), names);
    hide LastContent, LastEnd, Clear, Reach, Loop, Parse;
    ParseIs(b, limit, entry);
    OnLimit(b, limit, entry, Start, Node([], [], []), entry);
  }

  /** Below 4 GiB the limit alone decides. */
  lemma {:induction false} LowTreeComesBackExactly(b: Blob, limit: U32, entry: nat, n: Node, names: map<seq<Byte>, U32>)
    requires b.Valid() && StringsHold(b, names) && WholeWords(entry) && Printable(n, names)
    requires At(b.bytes, entry, PrintNode(n, names))
    ensures b.Placed() && Parse(b, limit, entry).Parsed?
    ensures Parse(b, limit, entry).node == n <==> n == Node([], [], []) || entry + Reach(n, names) < limit
  {
    LowBlob(b, entry, n, names);
    hide *;
    NearClear(b, entry, n, names);
    TreeComesBackExactly(b, limit, entry, n, names);
  }

  lemma LowBlob(b: Blob, entry: nat, n: Node, names: map<seq<Byte>, U32>)
    requires b.Valid() && Printable(n, names) && At(b.bytes, entry, PrintNode(n, names))
    ensures b.Placed() && b.Near(entry + LastEnd(n, names))
  {
    PlacesInside(n, names);
    hide LastContent, LastEnd, Reach, PrintNode;
  }

  /**
    What a parent needs of a child: the tree comes back with the parser on its END_NODE token precisely when
    the limit lies beyond the last name or property and all of them end below 4 GiB.
   */
  lemma {:induction false} RoundTripExactly(b: Blob, limit: U32, entry: nat, n: Node, names: map<seq<Byte>, U32>)
    requires b.Placed() && StringsHold(b, names) && WholeWords(entry) && Printable(n, names)
    requires At(b.bytes, entry, PrintNode(n, names))
    ensures Parse(b, limit, entry) == Parsed(n, entry + |PrintNode(n, names)| - 4) <==>
              entry + LastContent(n, names) < limit && b.Near(entry + LastEnd(n, names))
  {
    InBlob(b, entry, n, names);
    hide *;
    ThroughIs(b, limit, entry, n, names);
    if Through(b, limit, entry, n, names) {
      PrintedParses(b, limit, entry, n, names);
    } else {
      NodeCut(b, limit, entry, n, names);
    }
  }

  lemma InBlob(b: Blob, entry: nat, n: Node, names: map<seq<Byte>, U32>)
    requires b.Fits() && Printable(n, names) && At(b.bytes, entry, PrintNode(n, names))
    ensures entry + |PrintNode(n, names)| + 4 < 0x1_0000_0000
  {
  }

  /**
    A blob above 4 GiB is lost after the root's name: aligning that name throws the parser out of the blob,
    and the root comes back without properties or children.
   */
  lemma {:induction false} HighBlobLosesTree(b: Blob, limit: nat, entry: nat, name: seq<Byte>)
    requires b.Fits() && b.base + entry + 4 + |name| + 3 >= 0x1_0000_0000
    requires entry + 4 < limit < 0x1_0000_0000
    requires WordAt(b.bytes, entry) == Some(BEGIN_NODE) && WordAt(b.bytes, entry + 4).Some?
    requires CString(b.bytes, entry + 4) == Some(name)
    ensures Aligned(b, entry + 4 + |name|) >= limit
    ensures Parse(b, limit, entry) == Parsed(Node(name, [], []), Aligned(b, entry + 4 + |name|))
  {
    hide *;
    AlignedFar(b, entry + 4 + |name|);
    var none := Node([], [], []);
    ParseIs(b, limit, entry);
    OnStart(b, limit, entry, none, entry);
    OnName(b, limit, entry, none, entry + 4, name);
    OnLimit(b, limit, entry, NodeName, none.(name := name), Aligned(b, entry + 4 + |name|));
  }

  lemma AlignedFar(b: Blob, p: nat)
    requires b.Fits() && p <= |b.bytes| && b.base + p + 3 >= 0x1_0000_0000
    ensures Aligned(b, p) >= 0x1_0000_0000
  {
    AlignedForward(b, p);
    hide AlignTo, Wrap;
  }

  lemma ValidFits(b: Blob)
    requires b.Valid()
    ensures b.Fits()
  {
  }

  /** What the header says: the structure block is the root and an END token. */
  ghost function StructSize(n: Node, names: map<seq<Byte>, U32>): nat
    requires Printable(n, names)
  {
    |PrintNode(n, names)| + 4
  }

  /**
    The source measures the size of the structure block from the header, `entry` bytes before the block. So
    below 4 GiB its tree comes back precisely when less lies in front of the block than in it from the last name
    or property on. The first iff is for the tree, the second for the tree and the cursor.
   */
  lemma {:induction false} SourceLimit(b: Blob, entry: nat, n: Node, names: map<seq<Byte>, U32>)
    requires b.Valid() && StringsHold(b, names) && WholeWords(entry) && Printable(n, names)
    requires At(b.bytes, entry, PrintNode(n, names))
    ensures b.Placed() && Parse(b, StructSize(n, names), entry).Parsed?
    ensures Parse(b, StructSize(n, names), entry).node == n <==>
              n == Node([], [], []) || entry < StructSize(n, names) - Reach(n, names)
    ensures Parse(b, StructSize(n, names), entry) == Parsed(n, entry + |PrintNode(n, names)| - 4) <==>
              entry < StructSize(n, names) - LastContent(n, names)
  {
    LowBlob(b, entry, n, names);
    InBlob(b, entry, n, names);
    hide Reach, LastContent, LastEnd, PrintNode, Parse;
    LowTreeComesBackExactly(b, StructSize(n, names), entry, n, names);
    RoundTripExactly(b, StructSize(n, names), entry, n, names);
  }

  /** A root without a name and with one empty property `p`. */
  function SmallTree(): Node {
    Node([], [Property([112], [])], [])
  }

  /** A blob of a header, that tree's block, and a strings block. */
  ghost function SmallBlob(header: seq<Byte>): Blob
    requires |header| < 0x1000 && Printable(SmallTree(), map[[112] := 0])
  {
    Blob(header + PrintNode(SmallTree(), map[[112] := 0]) + (Be32(END) + [112, 0]), |header| + 28, 0)
  }

  lemma SmallTreePrints()
    ensures Printable(SmallTree(), map[[112] := 0])
    ensures |PrintNode(SmallTree(), map[[112] := 0])| == 24 && LastContent(SmallTree(), map[[112] := 0]) == 12
  {
    var n, names := SmallTree(), map[[112] := 0];
    assert Printable(n, names);
    NodeIs(n, names);
    PropertiesAre(n.properties, names);
    PropertiesAre([], names);
    ChildrenAre([], names);
    assert n.properties[1..] == [];
  }

  /** No header is short enough for that tree: the parser returns an empty root instead of it. */
  lemma {:induction false} SourceLimitFails(header: seq<Byte>)
    requires 40 <= |header| < 0x1000 && WholeWords(|header|)
    ensures Printable(SmallTree(), map[[112] := 0]) && StructSize(SmallTree(), map[[112] := 0]) == 28
    ensures var b, names := SmallBlob(header), map[[112] := 0];
            && b.Valid() && StringsHold(b, names) && At(b.bytes, |header|, PrintNode(SmallTree(), names))
            && Parse(b, 28, |header|) == Parsed(Node([], [], []), |header|)
  {
    SmallTreePrints();
    SmallBlobIs(header, map[[112] := 0]);
    hide *;
    var b, names := SmallBlob(header), map[[112] := 0];
    var block, end, text: seq<Byte> := PrintNode(SmallTree(), names), Be32(END), [112] + [0];
    AtParts(b.bytes, 0, header + block, end + text);
    AtParts(b.bytes, 0, header, block);
    AtParts(b.bytes, |header| + 24, end, text);
    CStringIs(b.bytes, |header| + 28, [112]);
    OneName(b);
    ValidFits(b);
    ParseIs(b, 28, |header|);
    OnLimit(b, 28, |header|, Start, Node([], [], []), |header|);
  }

  lemma OneName(b: Blob)
    requires CString(b.bytes, b.strings) == Some([112])
    ensures StringsHold(b, map[[112] := 0])
  {
  }

  lemma SmallBlobIs(header: seq<Byte>, names: map<seq<Byte>, U32>)
    requires |header| < 0x1000 && names == map[[112] := 0] && Printable(SmallTree(), names)
    ensures var b := SmallBlob(header);
            && b.Valid() && b.strings == |header| + 28
            && At(b.bytes, 0, (header + PrintNode(SmallTree(), names)) + (Be32(END) + ([112] + [0])))
  {
    assert [112] + [0] == [112, 0];
    hide PrintNode, Be32;
  }
}

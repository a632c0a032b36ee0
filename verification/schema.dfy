/** Declarative layouts and the structural matcher that checks a parsed tree
    against one, capturing named subtrees into a flat lookup.

    A layout is a tree of `Schema` nodes, each optionally labelled. Matching
    is order-preserving and greedy: the children of a SEQUENCE are matched
    against the declared items in order; an OPTIONAL item that does not
    match the next child is skipped and matching continues with the next
    item; a mandatory item that does not match fails the whole match. Once
    an item has matched, the matcher does not go back to try skipping it. */
module SchemaMatch {
  import opened Wrappers
  import opened Asn1

  datatype Schema<L> =
    /** Any single node with this tag and form: a primitive value, or a
        sub-structure whose inner layout is opaque to this model. */
    | Leaf(name: Option<L>, optional: bool, tag: Tag, constructed: bool)
    /** A constructed node whose children match `items` in order. */
    | Sequence(name: Option<L>, optional: bool, tag: Tag, items: Items<L>)
    /** SEQUENCE OF: a constructed node every child of which matches
        `item`; the node is captured under `name`, the list of children under
        `listName`. */
    | Repeated(name: Option<L>, listName: Option<L>, optional: bool, tag: Tag, item: Schema<L>)
    /** The first alternative that matches. */
    | Choice(optional: bool, alternatives: Items<L>)

  /** The declared items of a SEQUENCE, or the alternatives of a CHOICE, in
      order. */
  datatype Items<L> = Nil | Cons(head: Schema<L>, tail: Items<L>)

  /** What a label captured: one node, or the children of a SEQUENCE OF. */
  datatype Captured = One(node: Node) | Many(nodes: seq<Node>)

  function Capture<L(==)>(name: Option<L>, c: Captured): map<L, Captured> {
    match name
    case None => map[]
    case Some(l) => map[l := c]
  }

  /** Matches `n` against `s`; `None` is asn1js's `verified: false`. */
  function Match<L(==)>(s: Schema<L>, n: Node): Option<map<L, Captured>> {
    match s
    case Leaf(name, _, tag, constructed) =>
      if n.tag == tag && n.Constructed? == constructed then Some(Capture(name, One(n))) else None
    case Sequence(name, _, tag, items) =>
      if n.Constructed? && n.tag == tag then
        match MatchItems(items, n.children)
        case None => None
        case Some(inner) => Some(Capture(name, One(n)) + inner)
      else None
    case Repeated(name, listName, _, tag, item) =>
      if n.Constructed? && n.tag == tag && forall i | 0 <= i < |n.children| :: Match(item, n.children[i]).Some?
      then Some(Capture(name, One(n)) + Capture(listName, Many(n.children)))
      else None
    case Choice(_, alternatives) =>
      MatchFirst(alternatives, n)
  }

  /** Matches the children of a SEQUENCE against its declared items; every
      child must be consumed. */
  function MatchItems<L(==)>(items: Items<L>, kids: seq<Node>): Option<map<L, Captured>> {
    match items
    case Nil => if |kids| == 0 then Some(map[]) else None
    case Cons(item, rest) =>
      var head := if |kids| > 0 then Match(item, kids[0]) else None;
      if head.Some? then
        match MatchItems(rest, kids[1..])
        case None => None
        case Some(tail) => Some(head.value + tail)
      else if item.optional then
        MatchItems(rest, kids)
      else
        None
  }

  function MatchFirst<L(==)>(alternatives: Items<L>, n: Node): Option<map<L, Captured>> {
    match alternatives
    case Nil => None
    case Cons(alternative, rest) =>
      match Match(alternative, n)
      case Some(c) => Some(c)
      case None => MatchFirst(rest, n)
  }

  /** Whether a layout mentions label `x` anywhere. */
  predicate Declares<L(==)>(s: Schema<L>, x: L) {
    match s
    case Leaf(name, _, _, _) => name == Some(x)
    case Sequence(name, _, _, items) => name == Some(x) || DeclaresIn(items, x)
    case Repeated(name, listName, _, _, _) => name == Some(x) || listName == Some(x)
    case Choice(_, alternatives) => DeclaresIn(alternatives, x)
  }

  predicate DeclaresIn<L(==)>(items: Items<L>, x: L) {
    match items
    case Nil => false
    case Cons(item, rest) => Declares(item, x) || DeclaresIn(rest, x)
  }

  /** Whether every successful match of a layout captures label `x`: it is
      named outside every OPTIONAL item, and for a CHOICE by every
      alternative. */
  predicate Guarantees<L(==)>(s: Schema<L>, x: L) {
    match s
    case Leaf(name, _, _, _) => name == Some(x)
    case Sequence(name, _, _, items) => name == Some(x) || GuaranteesIn(items, x)
    case Repeated(name, listName, _, _, _) => name == Some(x) || listName == Some(x)
    case Choice(_, alternatives) => GuaranteesAll(alternatives, x)
  }

  predicate GuaranteesIn<L(==)>(items: Items<L>, x: L) {
    match items
    case Nil => false
    case Cons(item, rest) => (!item.optional && Guarantees(item, x)) || GuaranteesIn(rest, x)
  }

  predicate GuaranteesAll<L(==)>(alternatives: Items<L>, x: L) {
    match alternatives
    case Nil => false
    case Cons(alternative, Nil) => Guarantees(alternative, x)
    case Cons(alternative, rest) => Guarantees(alternative, x) && GuaranteesAll(rest, x)
  }

  /** A match captures nothing outside the labels its layout declares. */
  lemma {:induction false} MatchWithinLabels<L>(s: Schema<L>, n: Node, x: L)
    requires Match(s, n).Some? && x in Match(s, n).value
    ensures Declares(s, x)
  {
    match s
    case Leaf(_, _, _, _) =>
    case Sequence(name, _, tag, items) =>
      if name != Some(x) {
        MatchItemsWithinLabels(items, n.children, x);
      }
    case Repeated(_, _, _, _, _) =>
    case Choice(_, alternatives) =>
      MatchFirstWithinLabels(alternatives, n, x);
  }

  lemma {:induction false} MatchItemsWithinLabels<L>(items: Items<L>, kids: seq<Node>, x: L)
    requires MatchItems(items, kids).Some? && x in MatchItems(items, kids).value
    ensures DeclaresIn(items, x)
  {
    match items
    case Nil =>
    case Cons(item, rest) =>
      if |kids| > 0 && Match(item, kids[0]).Some? {
        if x in Match(item, kids[0]).value {
          MatchWithinLabels(item, kids[0], x);
        } else {
          MatchItemsWithinLabels(rest, kids[1..], x);
        }
      } else {
        MatchItemsWithinLabels(rest, kids, x);
      }
  }

  lemma {:induction false} MatchFirstWithinLabels<L>(alternatives: Items<L>, n: Node, x: L)
    requires MatchFirst(alternatives, n).Some? && x in MatchFirst(alternatives, n).value
    ensures DeclaresIn(alternatives, x)
  {
    match alternatives
    case Nil =>
    case Cons(alternative, rest) =>
      if Match(alternative, n).Some? {
        MatchWithinLabels(alternative, n, x);
      } else {
        MatchFirstWithinLabels(rest, n, x);
      }
  }

  /** A successful match captures every label its layout guarantees. */
  lemma {:induction false} MatchCapturesGuaranteed<L>(s: Schema<L>, n: Node, x: L)
    requires Match(s, n).Some? && Guarantees(s, x)
    ensures x in Match(s, n).value
  {
    match s
    case Leaf(_, _, _, _) =>
    case Sequence(name, _, tag, items) =>
      if name != Some(x) {
        MatchItemsCapturesGuaranteed(items, n.children, x);
      }
    case Repeated(_, _, _, _, _) =>
    case Choice(_, alternatives) =>
      MatchFirstCapturesGuaranteed(alternatives, n, x);
  }

  lemma {:induction false} MatchItemsCapturesGuaranteed<L>(items: Items<L>, kids: seq<Node>, x: L)
    requires MatchItems(items, kids).Some? && GuaranteesIn(items, x)
    ensures x in MatchItems(items, kids).value
  {
    match items
    case Nil =>
    case Cons(item, rest) =>
      if |kids| > 0 && Match(item, kids[0]).Some? {
        if !item.optional && Guarantees(item, x) {
          MatchCapturesGuaranteed(item, kids[0], x);
        } else {
          MatchItemsCapturesGuaranteed(rest, kids[1..], x);
        }
      } else {
        MatchItemsCapturesGuaranteed(rest, kids, x);
      }
  }

  lemma {:induction false} MatchFirstCapturesGuaranteed<L>(alternatives: Items<L>, n: Node, x: L)
    requires MatchFirst(alternatives, n).Some? && GuaranteesAll(alternatives, x)
    ensures x in MatchFirst(alternatives, n).value
  {
    match alternatives
    case Nil =>
    case Cons(alternative, rest) =>
      if Match(alternative, n).Some? {
        MatchCapturesGuaranteed(alternative, n, x);
      } else {
        MatchFirstCapturesGuaranteed(rest, n, x);
      }
  }

  /** A mandatory item must consume the next child, and its captures are
      followed by those of the remaining items. */
  lemma MatchItemsMandatory<L>(item: Schema<L>, rest: Items<L>, kids: seq<Node>)
    requires !item.optional && MatchItems(Cons(item, rest), kids).Some?
    ensures |kids| > 0 && Match(item, kids[0]).Some? && MatchItems(rest, kids[1..]).Some?
    ensures MatchItems(Cons(item, rest), kids).value == Match(item, kids[0]).value + MatchItems(rest, kids[1..]).value
  {
  }

  /** An item either consumes the next child, or is OPTIONAL, does not
      match it, and is skipped. */
  lemma MatchItemsOptional<L>(item: Schema<L>, rest: Items<L>, kids: seq<Node>)
    requires MatchItems(Cons(item, rest), kids).Some?
    ensures |kids| > 0 && Match(item, kids[0]).Some? ==>
      && MatchItems(rest, kids[1..]).Some?
      && MatchItems(Cons(item, rest), kids).value == Match(item, kids[0]).value + MatchItems(rest, kids[1..]).value
    ensures !(|kids| > 0 && Match(item, kids[0]).Some?) ==>
      item.optional && MatchItems(Cons(item, rest), kids) == MatchItems(rest, kids)
  {
  }

  /** The node a capture stands for: the node itself, or a SEQUENCE of the
      captured list. */
  function NodeOf(c: Captured): Node {
    match c
    case One(n) => n
    case Many(ns) => Constructed(SequenceTag, ns)
  }

  /** The nodes of a captured list. */
  function NodesOf(c: Captured): seq<Node> {
    match c
    case Many(ns) => ns
    case One(n) => if n.Constructed? then n.children else []
  }

  /** The first item consumes the first child when both it and the rest
      match. */
  lemma MatchItemsTake<L>(item: Schema<L>, rest: Items<L>, kids: seq<Node>)
    requires |kids| > 0 && Match(item, kids[0]).Some? && MatchItems(rest, kids[1..]).Some?
    ensures MatchItems(Cons(item, rest), kids) == Some(Match(item, kids[0]).value + MatchItems(rest, kids[1..]).value)
  {
  }

  /** An OPTIONAL item that does not match the next child is skipped. */
  lemma MatchItemsSkip<L>(item: Schema<L>, rest: Items<L>, kids: seq<Node>)
    requires item.optional && (|kids| == 0 || Match(item, kids[0]).None?)
    ensures MatchItems(Cons(item, rest), kids) == MatchItems(rest, kids)
  {
  }

  /** One unfolding of a successful SEQUENCE match. */
  lemma MatchSequence<L>(s: Schema<L>, n: Node)
    requires s.Sequence? && Match(s, n).Some?
    ensures n.Constructed? && n.tag == s.tag
    ensures MatchItems(s.items, n.children).Some?
    ensures Match(s, n).value == Capture(s.name, One(n)) + MatchItems(s.items, n.children).value
  {
  }

  /** A named SEQUENCE whose items do not reuse its own label captures the
      matched node under that label. */
  lemma MatchNamedSequence<L>(s: Schema<L>, n: Node, x: L)
    requires s.Sequence? && s.name == Some(x) && !DeclaresIn(s.items, x)
    requires Match(s, n).Some?
    ensures x in Match(s, n).value && Match(s, n).value[x] == One(n)
  {
    MatchSequence(s, n);
    if x in MatchItems(s.items, n.children).value {
      MatchItemsWithinLabels(s.items, n.children, x);
    }
  }

  /** Three mandatory items match exactly three children, one each. */
  lemma MatchThreeItems<L>(a: Schema<L>, b: Schema<L>, c: Schema<L>, kids: seq<Node>)
    requires !a.optional && !b.optional && !c.optional
    requires MatchItems(Cons(a, Cons(b, Cons(c, Nil))), kids).Some?
    ensures |kids| == 3
    ensures Match(a, kids[0]).Some? && Match(b, kids[1]).Some? && Match(c, kids[2]).Some?
    ensures MatchItems(Cons(a, Cons(b, Cons(c, Nil))), kids).value ==
      Match(a, kids[0]).value + (Match(b, kids[1]).value + (Match(c, kids[2]).value + map[]))
  {
    assert |kids| > 0 && Match(a, kids[0]).Some?;
    assert MatchItems(Cons(b, Cons(c, Nil)), kids[1..]).Some?;
    assert |kids| > 1 && Match(b, kids[1]).Some?;
    assert kids[1..][1..] == kids[2..];
    assert MatchItems(Cons(c, Nil), kids[2..]).Some?;
    assert |kids| > 2 && Match(c, kids[2]).Some?;
    assert kids[2..][1..] == kids[3..];
    assert MatchItems<L>(Nil, kids[3..]).Some?;
  }

  /** Three mandatory items matched by exactly three children. */
  lemma MatchThreeItemsConverse<L>(a: Schema<L>, b: Schema<L>, c: Schema<L>, kids: seq<Node>)
    requires |kids| == 3
    requires Match(a, kids[0]).Some? && Match(b, kids[1]).Some? && Match(c, kids[2]).Some?
    ensures MatchItems(Cons(a, Cons(b, Cons(c, Nil))), kids) ==
      Some(Match(a, kids[0]).value + (Match(b, kids[1]).value + (Match(c, kids[2]).value + map[])))
  {
    assert kids[1..][1..] == kids[2..];
    assert kids[2..][1..] == [];
    assert MatchItems<L>(Nil, kids[2..][1..]) == Some(map[]);
    assert MatchItems(Cons(c, Nil), kids[2..]) == Some(Match(c, kids[2]).value + map[]);
    assert MatchItems(Cons(b, Cons(c, Nil)), kids[1..]) ==
      Some(Match(b, kids[1]).value + (Match(c, kids[2]).value + map[]));
  }
}

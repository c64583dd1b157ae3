/**
 * The parsed markup tree the converter works on, as BeautifulSoup's
 * `html.parser` builder leaves it: elements with a tag name, the class
 * attribute split into tokens, the remaining attributes, and ordered
 * children; and text nodes.
 */
module Dom {
  import opened Strings

  /** What a rewrite pass can see and change of an element: its name, its
      class tokens (`None` when the element has no class attribute at all)
      and its other attributes, `id` among them. */
  datatype Head = Head(tag: string, classes: Option<seq<string>>, attrs: map<string, string>)

  datatype Node = Element(head: Head, children: seq<Node>) | Text(text: string)

  /** Number of nodes in a forest; the measure every traversal decreases. */
  function ForestSize(ns: seq<Node>): nat
  {
    if |ns| == 0 then 0
    else
      (match ns[0]
       case Text(_) => 1
       case Element(_, cs) => 1 + ForestSize(cs))
      + ForestSize(ns[1..])
  }

  /** The element heads of a forest in document (pre-)order. */
  function Heads(ns: seq<Node>): seq<Head>
    decreases ForestSize(ns)
  {
    if |ns| == 0 then []
    else
      (match ns[0]
       case Text(_) => []
       case Element(h, cs) => [h] + Heads(cs))
      + Heads(ns[1..])
  }

  /** One entry per node in document order; an element's entry records how
      many children it has, so the sequence determines the forest. */
  datatype Label = Open(head: Head, arity: nat) | Leaf(text: string)

  function Labels(ns: seq<Node>): seq<Label>
    decreases ForestSize(ns)
  {
    if |ns| == 0 then []
    else
      (match ns[0]
       case Text(t) => [Leaf(t)]
       case Element(h, cs) => [Open(h, |cs|)] + Labels(cs))
      + Labels(ns[1..])
  }

  /** `tag.text`: the text of every text node below, in document order. */
  function TextOf(ns: seq<Node>): string
    decreases ForestSize(ns)
  {
    if |ns| == 0 then ""
    else
      (match ns[0]
       case Text(t) => t
       case Element(_, cs) => TextOf(cs))
      + TextOf(ns[1..])
  }

  /** Every node of the forest in document order, each paired with whether
      `sel` selects an element above it; `under` says whether one above the
      whole forest is selected. */
  function Flagged(ns: seq<Node>, sel: Head -> bool, under: bool): seq<(Label, bool)>
    decreases ForestSize(ns)
  {
    if |ns| == 0 then []
    else
      (match ns[0]
       case Text(t) => [(Leaf(t), under)]
       case Element(h, cs) => [(Open(h, |cs|), under)] + Flagged(cs, sel, under || sel(h)))
      + Flagged(ns[1..], sel, under)
  }

  function LabelOf(p: (Label, bool)): Label
  {
    p.0
  }

  /** The flags annotate exactly the nodes of the document, in order. */
  lemma {:induction false} FlaggedLabels(ns: seq<Node>, sel: Head -> bool, under: bool)
    ensures MapSeq(Flagged(ns, sel, under), LabelOf) == Labels(ns)
    decreases ForestSize(ns)
  {
    if |ns| > 0 {
      var rest := Flagged(ns[1..], sel, under);
      var r := MapSeq(rest, LabelOf);
      assert r == Labels(ns[1..]) by {
        FlaggedLabels(ns[1..], sel, under);
      }
      match ns[0]
      case Text(t) =>
        var first := [(Leaf(t), under)];
        assert MapSeq(first, LabelOf) == [Leaf(t)] by {
          assert first[..0] == [];
        }
        TextFirst(ns, sel, under);
        MapSeqAppend(first, rest, LabelOf);
      case Element(h, cs) =>
        var first := [(Open(h, |cs|), under)];
        var inner := Flagged(cs, sel, under || sel(h));
        var m0, m1 := MapSeq(first, LabelOf), MapSeq(inner, LabelOf);
        assert m0 == [Open(h, |cs|)] by {
          assert first[..0] == [];
        }
        assert m1 == Labels(cs) by {
          FlaggedLabels(cs, sel, under || sel(h));
        }
        assert MapSeq(first + inner + rest, LabelOf) == m0 + m1 + r by {
          MapSeqAppend(first, inner, LabelOf);
          MapSeqAppend(first + inner, rest, LabelOf);
        }
        ElementFirst(ns, sel, under);
    }
  }

  /** Both views of a forest that starts with a text. */
  lemma TextFirst(ns: seq<Node>, sel: Head -> bool, under: bool)
    requires |ns| > 0 && ns[0].Text?
    ensures Flagged(ns, sel, under) == [(Leaf(ns[0].text), under)] + Flagged(ns[1..], sel, under)
    ensures Labels(ns) == [Leaf(ns[0].text)] + Labels(ns[1..])
  {
  }

  /** Both views of a forest that starts with an element. */
  lemma ElementFirst(ns: seq<Node>, sel: Head -> bool, under: bool)
    requires |ns| > 0 && ns[0].Element?
    ensures Flagged(ns, sel, under)
         == [(Open(ns[0].head, |ns[0].children|), under)] + Flagged(ns[0].children, sel, under || sel(ns[0].head)) + Flagged(ns[1..], sel, under)
    ensures Labels(ns) == [Open(ns[0].head, |ns[0].children|)] + Labels(ns[0].children) + Labels(ns[1..])
  {
  }

  /** Reads `n` trees off the front of a label sequence, each element
      taking as many trees for its children as its label says; the
      labels left over come second. */
  function Decode(ls: seq<Label>, n: nat): (r: Option<(seq<Node>, seq<Label>)>)
    ensures r.Some? ==> |r.value.0| == n && |r.value.1| <= |ls|
    decreases |ls|, n
  {
    if n == 0 then Some(([], ls))
    else if |ls| == 0 then None
    else
      match ls[0]
      case Leaf(t) =>
        (match Decode(ls[1..], n - 1)
         case None => None
         case Some(p) => Some(([Text(t)] + p.0, p.1)))
      case Open(h, a) =>
        (match Decode(ls[1..], a)
         case None => None
         case Some(inner) =>
           match Decode(inner.1, n - 1)
           case None => None
           case Some(p) => Some(([Element(h, inner.0)] + p.0, p.1)))
  }

  /** The labels of a forest read back as that forest, whatever follows
      them: so two forests with the same labels and as many trees are the
      same forest. */
  lemma {:induction false} DecodeLabels(ns: seq<Node>, rest: seq<Label>)
    ensures Decode(Labels(ns) + rest, |ns|) == Some((ns, rest))
    decreases ForestSize(ns)
  {
    if |ns| == 0 {
      assert Labels(ns) + rest == rest;
    } else {
      DecodeLabels(ns[1..], rest);
      assert ns == [ns[0]] + ns[1..];
      match ns[0]
      case Text(t) =>
        DecodeTextFirst(t, ns[1..], rest);
      case Element(h, cs) =>
        DecodeLabels(cs, Labels(ns[1..]) + rest);
        DecodeElementFirst(h, cs, ns[1..], rest);
    }
  }

  /** `DecodeLabels` for a forest that starts with a text. */
  lemma DecodeTextFirst(t: string, tail: seq<Node>, rest: seq<Label>)
    requires Decode(Labels(tail) + rest, |tail|) == Some((tail, rest))
    ensures Decode(Labels([Text(t)] + tail) + rest, 1 + |tail|) == Some(([Text(t)] + tail, rest))
  {
    var ns, after := [Text(t)] + tail, Labels(tail) + rest;
    assert ns[1..] == tail;
    assert Labels(ns) + rest == [Leaf(t)] + after;
    DecodeLeaf(t, after, tail, rest);
  }

  /** `DecodeLabels` for a forest that starts with an element. */
  lemma DecodeElementFirst(h: Head, cs: seq<Node>, tail: seq<Node>, rest: seq<Label>)
    requires Decode(Labels(tail) + rest, |tail|) == Some((tail, rest))
    requires Decode(Labels(cs) + (Labels(tail) + rest), |cs|) == Some((cs, Labels(tail) + rest))
    ensures Decode(Labels([Element(h, cs)] + tail) + rest, 1 + |tail|) == Some(([Element(h, cs)] + tail, rest))
  {
    var ns, after := [Element(h, cs)] + tail, Labels(tail) + rest;
    assert ns[1..] == tail;
    assert Labels(ns) + rest == [Open(h, |cs|)] + (Labels(cs) + after);
    DecodeOpen(h, cs, Labels(cs) + after, after, tail, rest);
  }

  /** One step of `Decode` over a text label. */
  lemma DecodeLeaf(t: string, after: seq<Label>, tail: seq<Node>, rest: seq<Label>)
    requires Decode(after, |tail|) == Some((tail, rest))
    ensures Decode([Leaf(t)] + after, 1 + |tail|) == Some(([Text(t)] + tail, rest))
  {
    assert ([Leaf(t)] + after)[1..] == after;
  }

  /** One step of `Decode` over an element label: first its children, then
      the trees after it. */
  lemma DecodeOpen(h: Head, cs: seq<Node>, body: seq<Label>, after: seq<Label>, tail: seq<Node>, rest: seq<Label>)
    requires Decode(body, |cs|) == Some((cs, after))
    requires Decode(after, |tail|) == Some((tail, rest))
    ensures Decode([Open(h, |cs|)] + body, 1 + |tail|) == Some(([Element(h, cs)] + tail, rest))
  {
    assert ([Open(h, |cs|)] + body)[1..] == body;
  }

  lemma LabelsDetermine(a: seq<Node>, b: seq<Node>)
    requires Labels(a) == Labels(b) && |a| == |b|
    ensures a == b
  {
    DecodeLabels(a, []);
    DecodeLabels(b, []);
    assert Labels(a) + [] == Labels(b) + [];
  }

  /** A query of `find` / `select_one`: an element name (`find('h1')`), a
      class token (`select_one('.name')`) or any element (`find(True)`). */
  datatype Query = TagIs(tag: string) | HasClass(token: string) | AnyTag

  predicate Selects(q: Query, h: Head)
  {
    match q
    case AnyTag => true
    case TagIs(t) => h.tag == t
    case HasClass(c) => h.classes.Some? && c in h.classes.value
  }

  /** The first element of the forest, in document order, that the query
      selects (`find` / `select_one` on the forest's parent). */
  function FindFirst(ns: seq<Node>, q: Query): (r: Option<Node>)
    ensures r.Some? ==> r.value.Element? && Selects(q, r.value.head) && r.value.head in Heads(ns)
    decreases ForestSize(ns)
  {
    if |ns| == 0 then None
    else
      match ns[0]
      case Text(_) => FindFirst(ns[1..], q)
      case Element(h, cs) =>
        if Selects(q, h) then Some(ns[0])
        else
          match FindFirst(cs, q)
          case Some(n) => Some(n)
          case None => FindFirst(ns[1..], q)
  }

  /** Every element of the forest, with all it holds, in document order:
      the i-th has the i-th head of `Heads`. */
  function Subtrees(ns: seq<Node>): (r: seq<Node>)
    ensures |r| == |Heads(ns)|
    decreases ForestSize(ns)
  {
    if |ns| == 0 then []
    else
      (match ns[0]
       case Text(_) => []
       case Element(_, cs) => [ns[0]] + Subtrees(cs))
      + Subtrees(ns[1..])
  }

  lemma {:induction false} SubtreesHeads(ns: seq<Node>)
    ensures forall i :: 0 <= i < |Subtrees(ns)| ==> Subtrees(ns)[i].Element? && Subtrees(ns)[i].head == Heads(ns)[i]
    decreases ForestSize(ns)
  {
    if |ns| > 0 {
      SubtreesHeads(ns[1..]);
      match ns[0]
      case Text(_) =>
      case Element(h, cs) =>
        SubtreesHeads(cs);
        var inner, rest := Subtrees(cs), Subtrees(ns[1..]);
        var r := Subtrees(ns);
        assert r == [ns[0]] + inner + rest;
        assert Heads(ns) == [h] + Heads(cs) + Heads(ns[1..]);
        forall i | 0 <= i < |r| ensures r[i].Element? && r[i].head == Heads(ns)[i] {
          if 1 <= i < 1 + |inner| {
            assert r[i] == inner[i - 1];
          } else if i >= 1 + |inner| {
            assert r[i] == rest[i - 1 - |inner|];
          }
        }
    }
  }

  /** The position of the first head the query selects, `|hs|` when it
      selects none. */
  function FirstSelected(hs: seq<Head>, q: Query): (i: nat)
    ensures i <= |hs|
    ensures forall j :: 0 <= j < i ==> !Selects(q, hs[j])
    ensures i < |hs| ==> Selects(q, hs[i])
  {
    if |hs| == 0 then 0
    else if Selects(q, hs[0]) then 0
    else 1 + FirstSelected(hs[1..], q)
  }

  /** The first selected position of two documents one after the other:
      in the first if it has one, else in the second, shifted. */
  lemma {:induction false} FirstSelectedAppend(a: seq<Head>, b: seq<Head>, q: Query)
    ensures FirstSelected(a + b, q)
         == if FirstSelected(a, q) < |a| then FirstSelected(a, q) else |a| + FirstSelected(b, q)
  {
    if |a| == 0 {
      assert a + b == b;
    } else {
      assert (a + b)[0] == a[0];
      if !Selects(q, a[0]) {
        assert (a + b)[1..] == a[1..] + b;
        FirstSelectedAppend(a[1..], b, q);
      }
    }
  }

  /** `find` / `select_one` give the element at the first position, in
      document order, whose head the query selects, and nothing when there
      is no such position. */
  lemma {:induction false} FindFirstIsFirst(ns: seq<Node>, q: Query)
    ensures var i := FirstSelected(Heads(ns), q);
      FindFirst(ns, q) == if i < |Heads(ns)| then Some(Subtrees(ns)[i]) else None
    decreases ForestSize(ns)
  {
    if |ns| > 0 {
      FindFirstIsFirst(ns[1..], q);
      match ns[0]
      case Text(_) =>
        assert Heads(ns) == Heads(ns[1..]) && Subtrees(ns) == Subtrees(ns[1..]);
      case Element(h, cs) =>
        FindFirstIsFirst(cs, q);
        if Selects(q, h) {
          assert Heads(ns)[0] == h;
        } else {
          FindFirstPast(ns, q);
        }
    }
  }

  /** The step of `FindFirstIsFirst` past an element the query does not
      select: on to its children, then to its later siblings. */
  lemma FindFirstPast(ns: seq<Node>, q: Query)
    requires |ns| > 0 && ns[0].Element? && !Selects(q, ns[0].head)
    requires var i := FirstSelected(Heads(ns[0].children), q);
      FindFirst(ns[0].children, q) == if i < |Heads(ns[0].children)| then Some(Subtrees(ns[0].children)[i]) else None
    requires var i := FirstSelected(Heads(ns[1..]), q);
      FindFirst(ns[1..], q) == if i < |Heads(ns[1..])| then Some(Subtrees(ns[1..])[i]) else None
    ensures var i := FirstSelected(Heads(ns), q);
      FindFirst(ns, q) == if i < |Heads(ns)| then Some(Subtrees(ns)[i]) else None
  {
    var cs, rest := ns[0].children, ns[1..];
    var hc, hr := Heads(cs), Heads(rest);
    var ic, ir := FirstSelected(hc, q), FirstSelected(hr, q);
    PastPosition(ns, q);
    var st := Subtrees(ns);
    PastSubtrees(ns);
    if ic < |hc| {
      assert st[1 + ic] == Subtrees(cs)[ic];
    } else if ir < |hr| {
      assert st[1 + |hc| + ir] == Subtrees(rest)[ir];
    }
  }

  lemma PastPosition(ns: seq<Node>, q: Query)
    requires |ns| > 0 && ns[0].Element? && !Selects(q, ns[0].head)
    ensures var hc, hr := Heads(ns[0].children), Heads(ns[1..]);
      var ic, ir := FirstSelected(hc, q), FirstSelected(hr, q);
      FirstSelected(Heads(ns), q) == if ic < |hc| then 1 + ic else 1 + |hc| + ir
  {
    var hc, hr := Heads(ns[0].children), Heads(ns[1..]);
    assert Heads(ns) == [ns[0].head] + (hc + hr);
    FirstSelectedCons(ns[0].head, hc + hr, q);
    FirstSelectedAppend(hc, hr, q);
  }

  lemma FirstSelectedCons(h: Head, t: seq<Head>, q: Query)
    ensures FirstSelected([h] + t, q) == if Selects(q, h) then 0 else 1 + FirstSelected(t, q)
  {
    assert ([h] + t)[0] == h && ([h] + t)[1..] == t;
  }

  lemma PastSubtrees(ns: seq<Node>)
    requires |ns| > 0 && ns[0].Element?
    ensures Subtrees(ns) == [ns[0]] + Subtrees(ns[0].children) + Subtrees(ns[1..])
  {
  }

  /** `FindFirst` finds nothing exactly when no element of the forest is
      selected by the query. */
  lemma {:induction false} FindFirstNone(ns: seq<Node>, q: Query)
    ensures FindFirst(ns, q).None? <==> forall h :: h in Heads(ns) ==> !Selects(q, h)
    decreases ForestSize(ns)
  {
    if |ns| > 0 {
      FindFirstNone(ns[1..], q);
      match ns[0]
      case Text(_) =>
      case Element(h, cs) =>
        FindFirstNone(cs, q);
        assert Heads(ns) == [h] + Heads(cs) + Heads(ns[1..]);
    }
  }

  /** The element children of a node (`[c for c in tag.children if
      isinstance(c, Tag)]`, `find_all(recursive=False)`). */
  function ElementsOf(ns: seq<Node>): (r: seq<Node>)
    ensures |r| <= |ns|
    ensures forall i :: 0 <= i < |r| ==> r[i].Element?
  {
    if |ns| == 0 then []
    else (if ns[0].Element? then [ns[0]] else []) + ElementsOf(ns[1..])
  }

  /** Every child that is an element is kept, and only those. */
  lemma {:induction false} ElementsOfMembers(ns: seq<Node>)
    ensures forall x :: x in ElementsOf(ns) <==> x in ns && x.Element?
  {
    if |ns| > 0 {
      ElementsOfMembers(ns[1..]);
      assert forall x :: x in ns <==> x == ns[0] || x in ns[1..];
    }
  }

  /** The element children keep their order: around any child, those
      before it come first and those after it last. */
  lemma {:induction false} ElementsOfOrder(a: seq<Node>, x: Node, b: seq<Node>)
    ensures ElementsOf(a + [x] + b) == ElementsOf(a) + (if x.Element? then [x] else []) + ElementsOf(b)
  {
    if |a| == 0 {
      assert a + [x] + b == [x] + b;
      assert ([x] + b)[1..] == b;
    } else {
      var c := a + [x] + b;
      assert c[0] == a[0] && c[1..] == a[1..] + [x] + b;
      ElementsOfOrder(a[1..], x, b);
      assert ElementsOf(c) == (if a[0].Element? then [a[0]] else []) + ElementsOf(c[1..]);
      assert ElementsOf(a) == (if a[0].Element? then [a[0]] else []) + ElementsOf(a[1..]);
    }
  }
}

/**
 * The rewrite passes of `preprocess`. Each pass of the source is one loop
 * `for x in soup.find_all(...)` (or `soup.select(...)`) that renames the
 * matched elements, replaces their attributes, or decomposes them. Here a
 * pass is a `Rule`: what `find_all` / `select` matches, and what the loop
 * body does to every match.
 *
 * A pass matches on an element's own name, classes and attributes only, and
 * a rename never changes what another element looks like, so collecting
 * the matches first and then rewriting each (the source) gives the same
 * tree as rewriting every matching element of the tree (the model).
 */
module Rules {
  import opened Strings
  import opened Dom

  /** What one pass selects. */
  datatype Matcher =
    | TagClass(tag: string, cls: string)            // find_all(tag, class_=cls)
    | AnyClass(cls: string)                         // find_all(class_=cls)
    | TagOnly(tag: string)                          // find_all(tag)
    | IdIs(id: string)                              // select('#id')
    | TagWithClassAttr(tag: string)                 // select('tag[class]')
    | TagAttr(tag: string, key: string, value: string)  // find_all(tag, attrs={key: value})

  /** What one pass does to each element it selects. */
  datatype Action =
    | Rename(tag: string)                           // x.name = tag
    | Replace(tag: string, cls: Option<string>)     // x.name = tag; x.attrs = {} / {'class': cls}
    | Remove                                        // x.decompose()
    | MarkedHeading(tag: string, markers: seq<(string, string)>)
      // x.name = tag; the first marker class found selects x.attrs = {'class': kind}

  datatype Rule = Rule(matcher: Matcher, action: Action)

  /** bs4's `class_=` test on a multi-valued attribute: one token equals the
      string, or the tokens joined by single spaces do. */
  predicate ClassMatches(classes: Option<seq<string>>, cls: string)
  {
    classes.Some? && (cls in classes.value || Join(classes.value, " ") == cls)
  }

  predicate Matches(m: Matcher, h: Head)
  {
    match m
    case TagClass(t, c) => h.tag == t && ClassMatches(h.classes, c)
    case AnyClass(c) => ClassMatches(h.classes, c)
    case TagOnly(t) => h.tag == t
    case IdIs(i) => "id" in h.attrs && h.attrs["id"] == i
    case TagWithClassAttr(t) => h.tag == t && h.classes.Some?
    case TagAttr(t, k, v) => h.tag == t && k in h.attrs && h.attrs[k] == v
  }

  /** The kind of the first marker (in table order) that is one of the
      classes; `None` when none is. */
  function FirstMarker(classes: seq<string>, markers: seq<(string, string)>): (r: Option<string>)
    ensures r.None? <==> forall k :: 0 <= k < |markers| ==> markers[k].0 !in classes
    ensures forall k ::
      (0 <= k < |markers| && markers[k].0 in classes && forall j :: 0 <= j < k ==> markers[j].0 !in classes)
      ==> r == Some(markers[k].1)
  {
    if |markers| == 0 then None
    else if markers[0].0 in classes then Some(markers[0].1)
    else
      var r := FirstMarker(classes, markers[1..]);
      assert forall k :: 1 <= k < |markers| ==> markers[k] == markers[1..][k - 1];
      r
  }

  /** The loop body of a renaming pass applied to one matched element. */
  function Rewrite(a: Action, h: Head): Head
    requires !a.Remove?
  {
    match a
    case Rename(t) => h.(tag := t)
    case Replace(t, None) => Head(t, None, map[])
    case Replace(t, Some(c)) => Head(t, Some([c]), map[])
    case MarkedHeading(t, markers) =>
      match FirstMarker(if h.classes.Some? then h.classes.value else [], markers)
      case None => h.(tag := t)
      case Some(kind) => Head(t, Some([kind]), map[])
  }

  /** What a renaming pass makes of any element: matched ones are rewritten,
      the others are left as they are. */
  function Step(r: Rule, h: Head): Head
    requires !r.action.Remove?
  {
    if Matches(r.matcher, h) then Rewrite(r.action, h) else h
  }

  /** A renaming pass over the whole forest. */
  function RetagAll(ns: seq<Node>, r: Rule): (out: seq<Node>)
    requires !r.action.Remove?
    ensures |out| == |ns|
    decreases ForestSize(ns)
  {
    if |ns| == 0 then []
    else
      [match ns[0]
       case Text(_) => ns[0]
       case Element(h, cs) => Element(Step(r, h), RetagAll(cs, r))]
      + RetagAll(ns[1..], r)
  }

  /** A decomposing pass: every selected element goes, with all it holds. */
  function Prune(ns: seq<Node>, m: Matcher): seq<Node>
    decreases ForestSize(ns)
  {
    if |ns| == 0 then []
    else
      (match ns[0]
       case Text(_) => [ns[0]]
       case Element(h, cs) => if Matches(m, h) then [] else [Element(h, Prune(cs, m))])
      + Prune(ns[1..], m)
  }

  function ApplyRule(ns: seq<Node>, r: Rule): seq<Node>
  {
    if r.action.Remove? then Prune(ns, r.matcher) else RetagAll(ns, r)
  }

  /** The passes run one after the other, in table order. */
  function ApplyRules(ns: seq<Node>, rules: seq<Rule>): seq<Node>
  {
    if |rules| == 0 then ns
    else ApplyRule(ApplyRules(ns, rules[..|rules| - 1]), rules[|rules| - 1])
  }

  // ---------------------------------------------------------------------
  // What a renaming pass does
  // ---------------------------------------------------------------------

  function StepLabel(r: Rule, l: Label): Label
    requires !r.action.Remove?
  {
    match l
    case Open(h, n) => Open(Step(r, h), n)
    case Leaf(_) => l
  }

  /** `StepLabel` of one pass, as a function value. */
  function StepLabelOf(r: Rule): Label -> Label
    requires !r.action.Remove?
  {
    (l: Label) => StepLabel(r, l)
  }

  function MapLabels(ls: seq<Label>, r: Rule): (out: seq<Label>)
    requires !r.action.Remove?
    ensures |out| == |ls| && forall i :: 0 <= i < |ls| ==> out[i] == StepLabel(r, ls[i])
  {
    var out := MapSeq(ls, StepLabelOf(r));
    MapSeqAt(ls, StepLabelOf(r));
    out
  }

  lemma MapLabelsAppend(a: seq<Label>, b: seq<Label>, r: Rule)
    requires !r.action.Remove?
    ensures MapLabels(a + b, r) == MapLabels(a, r) + MapLabels(b, r)
  {
    MapSeqAppend(a, b, StepLabelOf(r));
  }

  /** A renaming pass keeps the shape of the tree and every text: node by
      node in document order, each element head becomes `Step` of itself,
      and nothing else changes. */
  lemma {:induction false} RetagLabels(ns: seq<Node>, r: Rule)
    requires !r.action.Remove?
    ensures Labels(RetagAll(ns, r)) == MapLabels(Labels(ns), r)
    decreases ForestSize(ns)
  {
    if |ns| > 0 {
      RetagLabels(ns[1..], r);
      var out := RetagAll(ns, r);
      assert out[1..] == RetagAll(ns[1..], r);
      match ns[0]
      case Text(t) =>
        MapLabelsAppend([Leaf(t)], Labels(ns[1..]), r);
      case Element(h, cs) =>
        RetagLabels(cs, r);
        assert out[0] == Element(Step(r, h), RetagAll(cs, r));
        MapLabelsAppend([Open(h, |cs|)], Labels(cs), r);
        MapLabelsAppend([Open(h, |cs|)] + Labels(cs), Labels(ns[1..]), r);
    }
  }

  /** `Step` of one pass, as a function value. */
  function StepOf(r: Rule): Head -> Head
    requires !r.action.Remove?
  {
    (h: Head) => Step(r, h)
  }

  function MapHeads(hs: seq<Head>, r: Rule): (out: seq<Head>)
    requires !r.action.Remove?
    ensures |out| == |hs| && forall i :: 0 <= i < |hs| ==> out[i] == Step(r, hs[i])
  {
    var out := MapSeq(hs, StepOf(r));
    MapSeqAt(hs, StepOf(r));
    out
  }

  lemma MapHeadsAppend(a: seq<Head>, b: seq<Head>, r: Rule)
    requires !r.action.Remove?
    ensures MapHeads(a + b, r) == MapHeads(a, r) + MapHeads(b, r)
  {
    MapSeqAppend(a, b, StepOf(r));
  }

  /** The element heads in document order, before and after a renaming
      pass: the i-th becomes `Step` of the i-th. */
  lemma {:induction false} RetagHeads(ns: seq<Node>, r: Rule)
    requires !r.action.Remove?
    ensures Heads(RetagAll(ns, r)) == MapHeads(Heads(ns), r)
    decreases ForestSize(ns)
  {
    if |ns| > 0 {
      RetagHeads(ns[1..], r);
      var out := RetagAll(ns, r);
      assert out[1..] == RetagAll(ns[1..], r);
      match ns[0]
      case Text(t) =>
      case Element(h, cs) =>
        RetagHeads(cs, r);
        assert out[0] == Element(Step(r, h), RetagAll(cs, r));
        MapHeadsAppend([h], Heads(cs), r);
        MapHeadsAppend([h] + Heads(cs), Heads(ns[1..]), r);
    }
  }

  // ---------------------------------------------------------------------
  // What a decomposing pass does
  // ---------------------------------------------------------------------

  /** `a` is `b` with some entries left out, order kept. */
  predicate IsSubseq<T(==)>(a: seq<T>, b: seq<T>)
  {
    if |a| == 0 then true
    else if |b| == 0 then false
    else (a[0] == b[0] && IsSubseq(a[1..], b[1..])) || IsSubseq(a, b[1..])
  }

  lemma {:induction false} SubseqRefl<T>(a: seq<T>)
    ensures IsSubseq(a, a)
  {
    if |a| > 0 { SubseqRefl(a[1..]); }
  }

  lemma {:induction false} SubseqSkip<T>(a: seq<T>, x: seq<T>, b: seq<T>)
    requires IsSubseq(a, b)
    ensures IsSubseq(a, x + b)
  {
    if |x| == 0 {
      assert x + b == b;
    } else {
      SubseqSkip(a, x[1..], b);
      assert (x + b)[1..] == x[1..] + b;
      if |a| > 0 {
        assert IsSubseq(a, (x + b)[1..]);
      }
    }
  }

  lemma {:induction false} SubseqConcat<T>(a1: seq<T>, b1: seq<T>, a2: seq<T>, b2: seq<T>)
    requires IsSubseq(a1, b1) && IsSubseq(a2, b2)
    ensures IsSubseq(a1 + a2, b1 + b2)
    decreases |b1|
  {
    if |a1| == 0 {
      SubseqSkip(a2, b1, b2);
      assert a1 + a2 == a2;
    } else {
      assert (b1 + b2)[1..] == b1[1..] + b2;
      if a1[0] == b1[0] && IsSubseq(a1[1..], b1[1..]) {
        SubseqConcat(a1[1..], b1[1..], a2, b2);
        assert (a1 + a2)[1..] == a1[1..] + a2;
      } else {
        SubseqConcat(a1, b1[1..], a2, b2);
      }
    }
  }

  lemma {:induction false} SubseqMembers<T>(a: seq<T>, b: seq<T>)
    requires IsSubseq(a, b)
    ensures forall x :: x in a ==> x in b
  {
    if |a| > 0 && |b| > 0 {
      if a[0] == b[0] && IsSubseq(a[1..], b[1..]) {
        SubseqMembers(a[1..], b[1..]);
        assert forall x :: x in a ==> x == a[0] || x in a[1..];
      } else {
        SubseqMembers(a, b[1..]);
      }
    }
  }

  /** A decomposing pass leaves no selected element anywhere in the tree,
      and the elements that remain are elements of the input, in the same
      document order: nothing is created or reordered. */
  lemma {:induction false} PruneHeads(ns: seq<Node>, m: Matcher)
    ensures forall h :: h in Heads(Prune(ns, m)) ==> !Matches(m, h)
    ensures IsSubseq(Heads(Prune(ns, m)), Heads(ns))
    decreases ForestSize(ns)
  {
    if |ns| > 0 {
      PruneHeads(ns[1..], m);
      var rest := Prune(ns[1..], m);
      match ns[0]
      case Text(t) =>
        assert Prune(ns, m) == [ns[0]] + rest;
        assert Heads([ns[0]] + rest) == Heads(rest) by {
          assert ([ns[0]] + rest)[1..] == rest;
        }
        assert Heads(ns) == Heads(ns[1..]);
      case Element(h, cs) =>
        PruneHeads(cs, m);
        if Matches(m, h) {
          assert Prune(ns, m) == rest;
          SubseqSkip(Heads(rest), [h] + Heads(cs), Heads(ns[1..]));
        } else {
          var e := Element(h, Prune(cs, m));
          assert Prune(ns, m) == [e] + rest;
          assert Heads([e] + rest) == [h] + Heads(Prune(cs, m)) + Heads(rest) by {
            assert ([e] + rest)[1..] == rest;
          }
          assert IsSubseq([h] + Heads(Prune(cs, m)), [h] + Heads(cs)) by {
            assert ([h] + Heads(Prune(cs, m)))[1..] == Heads(Prune(cs, m));
            assert ([h] + Heads(cs))[1..] == Heads(cs);
          }
          SubseqConcat([h] + Heads(Prune(cs, m)), [h] + Heads(cs), Heads(rest), Heads(ns[1..]));
        }
    }
  }

  /** What a matcher selects, as a predicate on heads. */
  function Selector(m: Matcher): Head -> bool
  {
    (h: Head) => Matches(m, h)
  }

  /** How many nodes of a forest are not elements `sel` selects: the
      children an element keeps when the selected ones go. */
  function Staying(ns: seq<Node>, sel: Head -> bool): nat
  {
    if |ns| == 0 then 0
    else (if ns[0].Element? && sel(ns[0].head) then 0 else 1) + Staying(ns[1..], sel)
  }

  /** Every node of the forest in document order, paired with whether `sel`
      selects an element above it, an element labelled with the number of
      its children that `sel` does not select. */
  function Marked(ns: seq<Node>, sel: Head -> bool, under: bool): seq<(Label, bool)>
    decreases ForestSize(ns)
  {
    if |ns| == 0 then []
    else
      (match ns[0]
       case Text(t) => [(Leaf(t), under)]
       case Element(h, cs) => [(Open(h, Staying(cs, sel)), under)] + Marked(cs, sel, under || sel(h)))
      + Marked(ns[1..], sel, under)
  }

  /** The nodes a decomposing pass keeps, in document order: those that
      are not selected and lie below no selected element. */
  function Survivors(fs: seq<(Label, bool)>, sel: Head -> bool): seq<Label>
  {
    if |fs| == 0 then []
    else
      (if fs[0].1 || (fs[0].0.Open? && sel(fs[0].0.head)) then [] else [fs[0].0])
      + Survivors(fs[1..], sel)
  }

  lemma {:induction false} SurvivorsAppend(a: seq<(Label, bool)>, b: seq<(Label, bool)>, sel: Head -> bool)
    ensures Survivors(a + b, sel) == Survivors(a, sel) + Survivors(b, sel)
  {
    if |a| == 0 {
      assert a + b == b;
    } else {
      assert (a + b)[0] == a[0] && (a + b)[1..] == a[1..] + b;
      SurvivorsAppend(a[1..], b, sel);
    }
  }

  /** `decompose` takes every selected element with all it holds, and
      nothing else: the new tree, read in document order, is the old one
      without the selected elements and what lies below them, every kept
      element holding exactly its children that were not selected. By
      `DecodeLabels` these labels and the number of top-level nodes fix the
      tree. */
  lemma PruneLabels(ns: seq<Node>, m: Matcher)
    ensures Labels(Prune(ns, m)) == Survivors(Marked(ns, Selector(m), false), Selector(m))
    ensures |Prune(ns, m)| == Staying(ns, Selector(m))
  {
    PruneLabelsUnder(ns, m, false);
    PruneCount(ns, m);
  }

  /** The pass keeps, of a forest, the nodes that are not selected
      elements. */
  lemma {:induction false} PruneCount(ns: seq<Node>, m: Matcher)
    ensures |Prune(ns, m)| == Staying(ns, Selector(m))
    decreases ForestSize(ns)
  {
    if |ns| > 0 {
      PruneCount(ns[1..], m);
      if ns[0].Element? {
        assert Selector(m)(ns[0].head) == Matches(m, ns[0].head);
      }
    }
  }

  /** Below a selected element nothing survives; elsewhere the survivors
      are the nodes of the pruned forest. */
  lemma {:induction false} PruneLabelsUnder(ns: seq<Node>, m: Matcher, under: bool)
    ensures Survivors(Marked(ns, Selector(m), under), Selector(m)) == if under then [] else Labels(Prune(ns, m))
    decreases ForestSize(ns)
  {
    if |ns| > 0 {
      var sel := Selector(m);
      var rest := Marked(ns[1..], sel, under);
      PruneLabelsUnder(ns[1..], m, under);
      var pruned := Prune(ns, m);
      match ns[0]
      case Text(t) =>
        assert Marked(ns, sel, under) == [(Leaf(t), under)] + rest;
        SurvivorsAppend([(Leaf(t), under)], rest, sel);
        assert Survivors([(Leaf(t), under)], sel) == if under then [] else [Leaf(t)] by {
          assert [(Leaf(t), under)][1..] == [];
        }
        assert pruned == [ns[0]] + Prune(ns[1..], m);
        if !under {
          assert Labels(pruned) == [Leaf(t)] + Labels(Prune(ns[1..], m)) by {
            assert pruned[0] == ns[0] && pruned[1..] == Prune(ns[1..], m);
          }
        }
      case Element(h, cs) =>
        var lab := Open(h, Staying(cs, sel));
        var inner := Marked(cs, sel, under || sel(h));
        assert Marked(ns, sel, under) == [(lab, under)] + inner + rest;
        PruneLabelsUnder(cs, m, under || sel(h));
        SurvivorsAppend([(lab, under)], inner, sel);
        SurvivorsAppend([(lab, under)] + inner, rest, sel);
        assert sel(h) == Matches(m, h);
        assert Survivors([(lab, under)], sel) == if under || Matches(m, h) then [] else [lab] by {
          assert [(lab, under)][1..] == [];
        }
        if !under && Matches(m, h) {
          assert pruned == Prune(ns[1..], m);
        }
        if !under && !Matches(m, h) {
          var e := Element(h, Prune(cs, m));
          assert pruned == [e] + Prune(ns[1..], m);
          PruneCount(cs, m);
          assert Labels(pruned) == [lab] + Labels(Prune(cs, m)) + Labels(Prune(ns[1..], m)) by {
            assert pruned[0] == e && pruned[1..] == Prune(ns[1..], m);
          }
        }
    }
  }

  /** With nothing to select, a decomposing pass changes nothing. */
  lemma {:induction false} PruneNothing(ns: seq<Node>, m: Matcher)
    requires forall h :: h in Heads(ns) ==> !Matches(m, h)
    ensures Prune(ns, m) == ns
    decreases ForestSize(ns)
  {
    if |ns| > 0 {
      assert forall h :: h in Heads(ns[1..]) ==> h in Heads(ns);
      PruneNothing(ns[1..], m);
      match ns[0]
      case Text(_) =>
      case Element(h, cs) =>
        assert forall g :: g in Heads(cs) ==> g in Heads(ns);
        PruneNothing(cs, m);
    }
  }

  // ---------------------------------------------------------------------
  // Running a table of passes
  // ---------------------------------------------------------------------

  /** The loops of `preprocess`, one pass after the other over the soup. */
  method RunPasses(html: seq<Node>, rules: seq<Rule>) returns (soup: seq<Node>)
    ensures soup == ApplyRules(html, rules)
  {
    soup := html;
    for k := 0 to |rules|
      invariant soup == ApplyRules(html, rules[..k])
    {
      assert rules[..k + 1][..k] == rules[..k];
      soup := ApplyRule(soup, rules[k]);
    }
    assert rules[..|rules|] == rules;
  }

  /** Running two tables one after the other is running their concatenation. */
  lemma {:induction false} ApplyRulesAppend(ns: seq<Node>, a: seq<Rule>, b: seq<Rule>)
    ensures ApplyRules(ns, a + b) == ApplyRules(ApplyRules(ns, a), b)
  {
    if |b| > 0 {
      assert (a + b)[..|a + b| - 1] == a + b[..|b| - 1];
      assert (a + b)[|a + b| - 1] == b[|b| - 1];
      ApplyRulesAppend(ns, a, b[..|b| - 1]);
      assert ApplyRules(ns, a + b)
          == ApplyRule(ApplyRules(ns, a + b[..|b| - 1]), b[|b| - 1]);
    } else {
      assert a + b == a;
    }
  }

  /** bs4 splits the class attribute on whitespace, so no token holds a
      space. */
  predicate TokensWellFormed(h: Head)
  {
    h.classes.Some? ==> forall t :: t in h.classes.value ==> forall i :: 0 <= i < |t| ==> t[i] != ' '
  }

  predicate WellFormed(ns: seq<Node>)
  {
    forall h :: h in Heads(ns) ==> TokensWellFormed(h)
  }

  /** Every class string of the passes holds a space, so with well-formed
      tokens `class_=` is a test of the whole class string, in order. */
  lemma ExactClassMatch(h: Head, cls: string)
    requires TokensWellFormed(h)
    requires ' ' in cls
    ensures ClassMatches(h.classes, cls) <==> h.classes.Some? && Join(h.classes.value, " ") == cls
  {
  }

  /** A renaming pass changes no text: the document text reads the same. */
  lemma {:induction false} RetagText(ns: seq<Node>, r: Rule)
    requires !r.action.Remove?
    ensures TextOf(RetagAll(ns, r)) == TextOf(ns)
    decreases ForestSize(ns)
  {
    if |ns| > 0 {
      RetagText(ns[1..], r);
      var out := RetagAll(ns, r);
      assert out[1..] == RetagAll(ns[1..], r);
      match ns[0]
      case Text(_) =>
      case Element(h, cs) =>
        RetagText(cs, r);
    }
  }

  /** With nothing selected, a renaming pass changes nothing. */
  lemma {:induction false} RetagNothing(ns: seq<Node>, r: Rule)
    requires !r.action.Remove?
    requires forall h :: h in Heads(ns) ==> !Matches(r.matcher, h)
    ensures RetagAll(ns, r) == ns
    decreases ForestSize(ns)
  {
    if |ns| > 0 {
      match ns[0]
      case Text(_) =>
        assert Heads(ns) == Heads(ns[1..]);
        RetagNothing(ns[1..], r);
      case Element(h, cs) =>
        assert Heads(ns) == [h] + Heads(cs) + Heads(ns[1..]);
        RetagNothing(ns[1..], r);
        RetagNothing(cs, r);
        assert Step(r, h) == h;
    }
  }

  /** The element name a matcher requires, if it requires one. */
  function MatcherTag(m: Matcher): Option<string>
  {
    match m
    case TagClass(t, _) => Some(t)
    case TagOnly(t) => Some(t)
    case TagWithClassAttr(t) => Some(t)
    case TagAttr(t, _, _) => Some(t)
    case _ => None
  }

  /** A pass that cannot produce an element `m` selects: it decomposes, or
      it renames to another element name than the one `m` requires. */
  predicate CannotCreate(r: Rule, m: Matcher)
  {
    r.action.Remove? || (MatcherTag(m).Some? && r.action.tag != MatcherTag(m).value)
  }

  /** Once no element that `m` selects is left, passes that cannot create
      one keep it that way. */
  lemma {:induction false} StaysAbsent(ns: seq<Node>, rules: seq<Rule>, m: Matcher)
    requires forall h :: h in Heads(ns) ==> !Matches(m, h)
    requires forall k :: 0 <= k < |rules| ==> CannotCreate(rules[k], m)
    ensures forall h :: h in Heads(ApplyRules(ns, rules)) ==> !Matches(m, h)
  {
    if |rules| > 0 {
      var init := rules[..|rules| - 1];
      var r := rules[|rules| - 1];
      StaysAbsent(ns, init, m);
      var before := ApplyRules(ns, init);
      if r.action.Remove? {
        PruneKeepsAbsent(before, r.matcher, m);
      } else {
        RetagKeepsAbsent(before, r, m);
      }
    }
  }

  lemma PruneKeepsAbsent(ns: seq<Node>, pm: Matcher, m: Matcher)
    requires forall h :: h in Heads(ns) ==> !Matches(m, h)
    ensures forall h :: h in Heads(Prune(ns, pm)) ==> !Matches(m, h)
  {
    PruneHeads(ns, pm);
    SubseqMembers(Heads(Prune(ns, pm)), Heads(ns));
  }

  lemma RetagKeepsAbsent(ns: seq<Node>, r: Rule, m: Matcher)
    requires !r.action.Remove? && CannotCreate(r, m)
    requires forall h :: h in Heads(ns) ==> !Matches(m, h)
    ensures forall h :: h in Heads(RetagAll(ns, r)) ==> !Matches(m, h)
  {
    RetagHeads(ns, r);
    forall h | h in Heads(RetagAll(ns, r)) ensures !Matches(m, h) {
      var i :| 0 <= i < |Heads(ns)| && h == Step(r, Heads(ns)[i]);
      StepKeepsAbsent(r, m, Heads(ns)[i]);
    }
  }

  lemma StepKeepsAbsent(r: Rule, m: Matcher, g: Head)
    requires !r.action.Remove? && CannotCreate(r, m) && !Matches(m, g)
    ensures !Matches(m, Step(r, g))
  {
    if Matches(r.matcher, g) {
      RewriteSetsTag(r.action, g);
      if Matches(m, Step(r, g)) {
        SelectedHasTag(m, Step(r, g));
      }
    }
  }

  lemma RewriteSetsTag(a: Action, h: Head)
    requires !a.Remove?
    ensures Rewrite(a, h).tag == a.tag
  {
    if a.MarkedHeading? {
      match FirstMarker(if h.classes.Some? then h.classes.value else [], a.markers)
      case None =>
      case Some(kind) =>
    }
  }

  lemma SelectedHasTag(m: Matcher, h: Head)
    requires Matches(m, h) && MatcherTag(m).Some?
    ensures h.tag == MatcherTag(m).value
  {
  }


  // ---------------------------------------------------------------------
  // Several renaming passes
  // ---------------------------------------------------------------------

  predicate AllRenaming(rules: seq<Rule>)
  {
    forall k :: 0 <= k < |rules| ==> !rules[k].action.Remove?
  }

  /** What a table of renaming passes makes of one element. */
  function StepAll(rules: seq<Rule>, h: Head): Head
    requires AllRenaming(rules)
  {
    if |rules| == 0 then h
    else Step(rules[|rules| - 1], StepAll(rules[..|rules| - 1], h))
  }

  /** A table of renaming passes keeps the document text and the number of
      elements, and turns the i-th element into `StepAll` of it. */
  lemma {:induction false} RenamesHeads(ns: seq<Node>, rules: seq<Rule>)
    requires AllRenaming(rules)
    ensures var out := ApplyRules(ns, rules);
      && TextOf(out) == TextOf(ns)
      && |Heads(out)| == |Heads(ns)|
      && forall i :: 0 <= i < |Heads(ns)| ==> Heads(out)[i] == StepAll(rules, Heads(ns)[i])
  {
    if |rules| > 0 {
      var init := rules[..|rules| - 1];
      var r := rules[|rules| - 1];
      RenamesHeads(ns, init);
      var before := ApplyRules(ns, init);
      RetagHeads(before, r);
      RetagText(before, r);
    }
  }
}

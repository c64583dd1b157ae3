/**
 * The last pass of the newer `preprocess`: every `<svg>` without a class
 * attribute, in document order from 1, gets its missing `width` / `height`
 * from its `viewbox`, is written to a side file `{prefix}_{NN}.svg`, and is
 * replaced in the tree by `<img src="{prefix}_{NN}.svg">`.
 *
 * `find_all` collects the svgs before the loop starts, nested ones
 * included; an svg nested in an earlier one is still numbered and written,
 * although it now sits in a subtree that has left the document.
 */
module SvgExtraction {
  import opened Strings
  import opened Dom

  datatype SideFile = SideFile(name: string, content: string)

  /** What the pass collects: `find_all('svg', class_=False)`. */
  predicate Extractable(h: Head)
  {
    h.tag == "svg" && h.classes.None?
  }

  /** The collected svgs, in document order, nested ones included. */
  function Svgs(ns: seq<Node>): (r: seq<Node>)
    ensures forall i :: 0 <= i < |r| ==> r[i].Element? && Extractable(r[i].head)
    decreases ForestSize(ns)
  {
    if |ns| == 0 then []
    else
      (match ns[0]
       case Text(_) => []
       case Element(h, cs) => (if Extractable(h) then [ns[0]] else []) + Svgs(cs))
      + Svgs(ns[1..])
  }

  const DEFAULT_VIEWBOX := "0 0 0 0"

  /** `svg.attrs` after the two `if ... not in svg.attrs` updates; `None`
      where `view_box.split(' ')[2]` or `[3]` raises `IndexError`. */
  function FillDims(attrs: map<string, string>): Option<map<string, string>>
  {
    var fields := Split(if "viewbox" in attrs then attrs["viewbox"] else DEFAULT_VIEWBOX, ' ');
    if "width" !in attrs && |fields| < 3 then None
    else
      var withWidth := if "width" in attrs then attrs else attrs["width" := fields[2]];
      if "height" !in withWidth && |fields| < 4 then None
      else Some(if "height" in withWidth then withWidth else withWidth["height" := fields[3]])
  }

  /** `f'{image_prefix}_{i:02}.svg'` */
  function SvgName(prefix: string, i: nat): string
  {
    prefix + "_" + PadTwo(i) + ".svg"
  }

  /** `<img src=...>` standing for svg number `i`. */
  function ImgHead(prefix: string, i: nat): Head
  {
    Head("img", None, map["src" := SvgName(prefix, i)])
  }

  /** The svg after the dimension update (unchanged where the update
      raises; the pass stops before writing such an svg). */
  function Filled(svg: Node): Node
  {
    if svg.Element? && FillDims(svg.head.attrs).Some? then
      Element(svg.head.(attrs := FillDims(svg.head.attrs).value), svg.children)
    else svg
  }

  /** The side file written for svg number `i`: `str(svg)` after the
      dimension update. */
  function SvgFile(prefix: string, i: nat, svg: Node, serialize: Node -> string): SideFile
  {
    SideFile(SvgName(prefix, i), serialize(Filled(svg)))
  }

  /** Index of the first collected svg whose dimensions cannot be filled;
      the loop raises there. */
  function FirstBad(svgs: seq<Node>): (m: nat)
    requires forall i :: 0 <= i < |svgs| ==> svgs[i].Element?
    ensures m <= |svgs|
    ensures forall j :: 0 <= j < m ==> FillDims(svgs[j].head.attrs).Some?
    ensures m < |svgs| ==> FillDims(svgs[m].head.attrs).None?
  {
    if |svgs| == 0 then 0
    else if FillDims(svgs[0].head.attrs).None? then 0
    else 1 + FirstBad(svgs[1..])
  }

  /** The tree once every collected svg has been replaced, svg number `k`
      first; the second component is the number after the last one used. */
  function ReplaceSvgs(ns: seq<Node>, prefix: string, k: nat): (r: (seq<Node>, nat))
    ensures |r.0| == |ns| && r.1 == k + |Svgs(ns)|
    decreases ForestSize(ns)
  {
    if |ns| == 0 then ([], k)
    else
      var first: (seq<Node>, nat) :=
        match ns[0]
        case Text(_) => ([ns[0]], k)
        case Element(h, cs) =>
          if Extractable(h) then ([Element(ImgHead(prefix, k), [])], k + 1 + |Svgs(cs)|)
          else
            var inner := ReplaceSvgs(cs, prefix, k);
            ([Element(h, inner.0)], inner.1);
      var rest := ReplaceSvgs(ns[1..], prefix, first.1);
      (first.0 + rest.0, rest.1)
  }

  /** Outcome of the pass: the new tree and the side files, or the
      `IndexError` raised after the side files written so far. */
  datatype Extraction = Done(soup: seq<Node>, files: seq<SideFile>) | Failed(files: seq<SideFile>)

  /** The side files of the first `m` collected svgs, numbered from 1. */
  function SideFiles(svgs: seq<Node>, m: nat, prefix: string, serialize: Node -> string): (r: seq<SideFile>)
    requires m <= |svgs|
    ensures |r| == m
  {
    if m == 0 then [] else SideFiles(svgs, m - 1, prefix, serialize) + [SvgFile(prefix, m, svgs[m - 1], serialize)]
  }

  /** The pass as a whole: one side file per collected svg, numbered from 1
      in document order, up to the first svg whose dimensions cannot be
      filled. */
  function Extract(soup: seq<Node>, prefix: string, serialize: Node -> string): Extraction
  {
    var svgs := Svgs(soup);
    var m := FirstBad(svgs);
    var files := SideFiles(svgs, m, prefix, serialize);
    if m < |svgs| then Failed(files) else Done(ReplaceSvgs(soup, prefix, 1).0, files)
  }

  /** The loop of the source: walk the collected svgs with a counter from 1,
      fill the dimensions, record the side file. The replacements do not
      influence what later iterations see, so they are applied once the
      files are all written. */
  method ExtractSvgs(soup: seq<Node>, prefix: string, serialize: Node -> string) returns (r: Extraction)
    ensures r == Extract(soup, prefix, serialize)
  {
    var svgs := Svgs(soup);
    var files: seq<SideFile> := [];
    var i := 0;
    while i < |svgs|
      invariant 0 <= i <= FirstBad(svgs)
      invariant files == SideFiles(svgs, i, prefix, serialize)
    {
      var svg := svgs[i];
      var attrs := FillDims(svg.head.attrs);
      if attrs.None? {
        assert i == FirstBad(svgs);
        return Failed(files);
      }
      var written := serialize(Element(svg.head.(attrs := attrs.value), svg.children));
      files := files + [SideFile(SvgName(prefix, i + 1), written)];
      i := i + 1;
    }
    r := Done(ReplaceSvgs(soup, prefix, 1).0, files);
  }

  // ---------------------------------------------------------------------
  // Properties
  // ---------------------------------------------------------------------

  /** There is one side file per collected svg, or, when an svg's
      dimensions cannot be filled, one per svg before it. */
  lemma ExtractCount(soup: seq<Node>, prefix: string, serialize: Node -> string)
    ensures var svgs := Svgs(soup);
            var r := Extract(soup, prefix, serialize);
            |r.files| <= |svgs|
            && (r.Done? <==> |r.files| == |svgs|)
            && (r.Failed? ==> FillDims(svgs[|r.files|].head.attrs).None?)
  {
  }

  /** The side file at position `j` is named `{prefix}_{j+1:02}.svg` and
      holds the (j+1)-th collected svg after the dimension update. */
  lemma ExtractFiles(soup: seq<Node>, prefix: string, serialize: Node -> string)
    ensures var svgs := Svgs(soup);
            var r := Extract(soup, prefix, serialize);
            forall j :: 0 <= j < |r.files| ==>
              FillDims(svgs[j].head.attrs).Some?
              && r.files[j] == SvgFile(prefix, j + 1, svgs[j], serialize)
  {
    var svgs := Svgs(soup);
    SideFilesAt(svgs, FirstBad(svgs), prefix, serialize);
  }

  lemma SideFilesAt(svgs: seq<Node>, m: nat, prefix: string, serialize: Node -> string)
    requires m <= |svgs|
    ensures forall j :: 0 <= j < m ==> SideFiles(svgs, m, prefix, serialize)[j] == SvgFile(prefix, j + 1, svgs[j], serialize)
  {
    forall j | 0 <= j < m ensures SideFiles(svgs, m, prefix, serialize)[j] == SvgFile(prefix, j + 1, svgs[j], serialize) {
      SideFileAt(svgs, m, j, prefix, serialize);
    }
  }

  lemma {:induction false} SideFileAt(svgs: seq<Node>, m: nat, j: nat, prefix: string, serialize: Node -> string)
    requires j < m <= |svgs|
    ensures SideFiles(svgs, m, prefix, serialize)[j] == SvgFile(prefix, j + 1, svgs[j], serialize)
  {
    if j < m - 1 {
      SideFileAt(svgs, m - 1, j, prefix, serialize);
    }
  }

  /** Different indices give different side-file names, so no side file
      overwrites another. */
  lemma SvgNameInjective(prefix: string, i: nat, j: nat)
    requires SvgName(prefix, i) == SvgName(prefix, j)
    ensures i == j
  {
    var a, b := PadTwo(i), PadTwo(j);
    assert prefix + "_" + a + ".svg" == prefix + "_" + b + ".svg";
    assert |a| == |b|;
    assert a == (prefix + "_" + a + ".svg")[|prefix| + 1..|prefix| + 1 + |a|];
    assert b == (prefix + "_" + b + ".svg")[|prefix| + 1..|prefix| + 1 + |b|];
    PadTwoRoundTrip(i);
    PadTwoRoundTrip(j);
  }

  /** The filled attributes: everything that was there stays as it was,
      and `width` and `height` are now present; a missing one is taken from
      the viewbox fields 2 and 3, the viewbox defaulting to "0 0 0 0". */
  lemma FillDimsSpec(attrs: map<string, string>)
    ensures var fields := Split(if "viewbox" in attrs then attrs["viewbox"] else DEFAULT_VIEWBOX, ' ');
      && (FillDims(attrs).None? <==>
           ("width" !in attrs && |fields| < 3) || ("height" !in attrs && |fields| < 4))
      && (FillDims(attrs).Some? ==>
           var a := FillDims(attrs).value;
           && a.Keys == attrs.Keys + {"width", "height"}
           && (forall key :: key in attrs ==> a[key] == attrs[key])
           && ("width" !in attrs ==> a["width"] == fields[2])
           && ("height" !in attrs ==> a["height"] == fields[3]))
  {
  }

  /** A viewbox of four space-separated fields `min-x min-y w h` gives a
      missing width `w` and a missing height `h`. */
  lemma FillDimsFromViewBox(attrs: map<string, string>, minX: string, minY: string, w: string, h: string)
    requires forall i :: 0 <= i < |minX| ==> minX[i] != ' '
    requires forall i :: 0 <= i < |minY| ==> minY[i] != ' '
    requires forall i :: 0 <= i < |w| ==> w[i] != ' '
    requires forall i :: 0 <= i < |h| ==> h[i] != ' '
    requires "viewbox" in attrs && attrs["viewbox"] == minX + " " + minY + " " + w + " " + h
    requires "width" !in attrs && "height" !in attrs
    ensures FillDims(attrs) == Some(attrs["width" := w]["height" := h])
  {
    var wh := w + " " + h;
    var ywh := minY + " " + wh;
    assert Split(wh, ' ') == [w, h] by {
      SplitNoSep(h, ' ');
      SplitFirstPiece(w, h, ' ');
    }
    assert Split(ywh, ' ') == [minY, w, h] by {
      SplitFirstPiece(minY, wh, ' ');
    }
    assert Split(attrs["viewbox"], ' ') == [minX, minY, w, h] by {
      assert attrs["viewbox"] == minX + [' '] + ywh;
      SplitFirstPiece(minX, ywh, ' ');
    }
  }

  /** What the pass collects, as a predicate on heads. */
  function Collects(): Head -> bool
  {
    (h: Head) => Extractable(h)
  }

  predicate IsCollected(n: Node)
  {
    n.Element? && Extractable(n.head)
  }

  /** `find_all('svg', class_=False)` lists exactly the class-less svgs of
      the tree, nested ones included, in document order. */
  lemma {:induction false} SvgsInOrder(ns: seq<Node>)
    ensures Svgs(ns) == FilterSeq(Subtrees(ns), IsCollected)
    decreases ForestSize(ns)
  {
    if |ns| > 0 {
      SvgsInOrder(ns[1..]);
      var rest := Subtrees(ns[1..]);
      match ns[0]
      case Text(_) =>
        assert Subtrees(ns) == rest;
      case Element(h, cs) =>
        SvgsInOrder(cs);
        var inner := Subtrees(cs);
        PastSubtrees(ns);
        FilterSeqAppend([ns[0]], inner, IsCollected);
        FilterSeqAppend([ns[0]] + inner, rest, IsCollected);
        assert FilterSeq([ns[0]], IsCollected) == if Extractable(h) then [ns[0]] else [] by {
          assert [ns[0]][1..] == [];
        }
    }
  }

  /** 1 for an entry that is a collected svg, 0 otherwise. */
  function Counted(f: (Label, bool)): nat
  {
    if f.0.Open? && Extractable(f.0.head) then 1 else 0
  }

  /** How many entries of a flagged document are collected svgs. */
  function CollectedCount(fs: seq<(Label, bool)>): nat
  {
    if |fs| == 0 then 0 else Counted(fs[0]) + CollectedCount(fs[1..])
  }

  /** What one entry becomes when `k` collected svgs came before it. */
  function Substitute(f: (Label, bool), prefix: string, k: nat): seq<Label>
  {
    if f.1 then [] else if Counted(f) == 1 then [Open(ImgHead(prefix, k), 0)] else [f.0]
  }

  /** The document after the replacement, read off its flagged nodes:
      counting the collected svgs in document order from `k`, one that lies
      in no other collected svg becomes the `<img>` of its number, every
      node inside a collected svg goes, and every other node stays. */
  function Substituted(fs: seq<(Label, bool)>, prefix: string, k: nat): seq<Label>
  {
    if |fs| == 0 then []
    else Substitute(fs[0], prefix, k) + Substituted(fs[1..], prefix, k + Counted(fs[0]))
  }

  lemma {:induction false} CountAppend(a: seq<(Label, bool)>, b: seq<(Label, bool)>)
    ensures CollectedCount(a + b) == CollectedCount(a) + CollectedCount(b)
  {
    if |a| == 0 {
      assert a + b == b;
    } else {
      assert (a + b)[0] == a[0] && (a + b)[1..] == a[1..] + b;
      CountAppend(a[1..], b);
    }
  }

  lemma {:induction false} SubstitutedAppend(a: seq<(Label, bool)>, b: seq<(Label, bool)>, prefix: string, k: nat, kb: nat)
    requires kb == k + CollectedCount(a)
    ensures Substituted(a + b, prefix, k) == Substituted(a, prefix, k) + Substituted(b, prefix, kb)
  {
    if |a| == 0 {
      assert a + b == b;
    } else {
      var c := a + b;
      assert c[0] == a[0] && c[1..] == a[1..] + b;
      var k' := k + Counted(a[0]);
      SubstitutedAppend(a[1..], b, prefix, k', kb);
      var own, x, y := Substitute(a[0], prefix, k), Substituted(a[1..], prefix, k'), Substituted(b, prefix, kb);
      assert Substituted(c, prefix, k) == own + (x + y);
      assert Substituted(a, prefix, k) == own + x;
      assert own + (x + y) == (own + x) + y;
    }
  }

  /** Every collected svg of a forest is counted, whatever lies above. */
  lemma {:induction false} CountFlagged(ns: seq<Node>, under: bool)
    ensures CollectedCount(Flagged(ns, Collects(), under)) == |Svgs(ns)|
    decreases ForestSize(ns)
  {
    if |ns| > 0 {
      var rest := Flagged(ns[1..], Collects(), under);
      CountFlagged(ns[1..], under);
      match ns[0]
      case Text(t) =>
        TextFirst(ns, Collects(), under);
        CountAppend([(Leaf(t), under)], rest);
      case Element(h, cs) =>
        ElementFirst(ns, Collects(), under);
        var inner := Flagged(cs, Collects(), under || Extractable(h));
        CountFlagged(cs, under || Extractable(h));
        CountAppend([(Open(h, |cs|), under)], inner);
        CountAppend([(Open(h, |cs|), under)] + inner, rest);
    }
  }

  /** The replacement puts, in place of the svg numbered `k + j` in
      document order (nested ones counted), the `<img>` of side file
      `k + j`, with no children, when that svg lies in no other collected
      svg; it drops what the collected svgs hold and keeps every other
      element and text, order and child counts included, so each kept node
      stays under the parent it had (`DecodeLabels`: the labels and the
      number of top-level nodes, which `ReplaceSvgs` keeps, fix the tree). */
  lemma ReplaceSvgsLabels(ns: seq<Node>, prefix: string, k: nat)
    ensures Labels(ReplaceSvgs(ns, prefix, k).0) == Substituted(Flagged(ns, Collects(), false), prefix, k)
  {
    ReplaceSvgsAgree(ns, prefix, k);
  }

  /** The replaced tree, read in document order, is the flagged document
      substituted. */
  predicate LabelsAgree(ns: seq<Node>, prefix: string, k: nat)
  {
    Labels(ReplaceSvgs(ns, prefix, k).0) == Substituted(Flagged(ns, Collects(), false), prefix, k)
  }

  lemma {:induction false} ReplaceSvgsAgree(ns: seq<Node>, prefix: string, k: nat)
    ensures LabelsAgree(ns, prefix, k)
    decreases ForestSize(ns)
  {
    if |ns| == 0 {
      assert LabelsAgree(ns, prefix, k);
    } else if ns[0].Text? {
      ReplaceSvgsAgree(ns[1..], prefix, k);
      TextLabels(ns, prefix, k);
    } else if Extractable(ns[0].head) {
      var k1 := k + 1 + |Svgs(ns[0].children)|;
      ReplaceSvgsAgree(ns[1..], prefix, k1);
      ReplacedLabels(ns, prefix, k, k1);
    } else {
      var k1 := k + |Svgs(ns[0].children)|;
      ReplaceSvgsAgree(ns[0].children, prefix, k);
      ReplaceSvgsAgree(ns[1..], prefix, k1);
      KeptLabels(ns, prefix, k, k1);
    }
  }

  /** Whatever lies inside a collected svg leaves nothing behind. */
  lemma {:induction false} SubstitutedUnder(ns: seq<Node>, prefix: string, k: nat)
    ensures Substituted(Flagged(ns, Collects(), true), prefix, k) == []
    decreases ForestSize(ns)
  {
    if |ns| == 0 {
    } else if ns[0].Text? {
      var t := ns[0].text;
      SubstitutedUnder(ns[1..], prefix, k);
      TextFirst(ns, Collects(), true);
      Single((Leaf(t), true), prefix, k);
      SubstitutedAppend([(Leaf(t), true)], Flagged(ns[1..], Collects(), true), prefix, k, k);
    } else if Extractable(ns[0].head) {
      var k1 := k + 1 + |Svgs(ns[0].children)|;
      SubstitutedUnder(ns[0].children, prefix, k + 1);
      SubstitutedUnder(ns[1..], prefix, k1);
      ReplacedSplit(ns, prefix, k, k1, true);
    } else {
      var k1 := k + |Svgs(ns[0].children)|;
      SubstitutedUnder(ns[0].children, prefix, k);
      SubstitutedUnder(ns[1..], prefix, k1);
      KeptSplit(ns, prefix, k, k1, true);
    }
  }

  /** One step of `ReplaceSvgsAgree` over a leading text. */
  lemma TextLabels(ns: seq<Node>, prefix: string, k: nat)
    requires |ns| > 0 && ns[0].Text?
    requires LabelsAgree(ns[1..], prefix, k)
    ensures LabelsAgree(ns, prefix, k)
  {
    var t := ns[0].text;
    var rest := Labels(ReplaceSvgs(ns[1..], prefix, k).0);
    assert rest == Substituted(Flagged(ns[1..], Collects(), false), prefix, k);
    assert Substituted(Flagged(ns, Collects(), false), prefix, k) == [Leaf(t)] + rest by {
      TextFirst(ns, Collects(), false);
      Single((Leaf(t), false), prefix, k);
      SubstitutedAppend([(Leaf(t), false)], Flagged(ns[1..], Collects(), false), prefix, k, k);
    }
    assert Labels(ReplaceSvgs(ns, prefix, k).0) == [Leaf(t)] + rest by {
      var r, after := ReplaceSvgs(ns, prefix, k), ReplaceSvgs(ns[1..], prefix, k);
      assert r.0 == [ns[0]] + after.0;
      TextFirst(r.0, Collects(), false);
      assert r.0[1..] == after.0;
    }
  }

  /** One step of `ReplaceSvgsAgree` over a leading collected svg: it
      becomes the `<img>` of number `k`, and what it holds goes. */
  lemma ReplacedLabels(ns: seq<Node>, prefix: string, k: nat, k1: nat)
    requires |ns| > 0 && ns[0].Element? && Extractable(ns[0].head)
    requires k1 == k + 1 + |Svgs(ns[0].children)|
    requires LabelsAgree(ns[1..], prefix, k1)
    ensures LabelsAgree(ns, prefix, k)
  {
    ReplacedSubstituted(ns, prefix, k, k1);
    ReplacedFirst(ns, prefix, k, k1);
  }

  /** The substituted document of a forest starting with a collected svg:
      its `<img>`, then the rest's. */
  lemma ReplacedSubstituted(ns: seq<Node>, prefix: string, k: nat, k1: nat)
    requires |ns| > 0 && ns[0].Element? && Extractable(ns[0].head)
    requires k1 == k + 1 + |Svgs(ns[0].children)|
    ensures Substituted(Flagged(ns, Collects(), false), prefix, k)
         == [Open(ImgHead(prefix, k), 0)] + [] + Substituted(Flagged(ns[1..], Collects(), false), prefix, k1)
  {
    ReplacedSplit(ns, prefix, k, k1, false);
    SubstitutedUnder(ns[0].children, prefix, k + 1);
    SubstituteHead(ns[0].head, |ns[0].children|, false, prefix, k);
  }

  /** One step of `ReplaceSvgsAgree` over a leading kept element: it stays,
      its children replaced in turn. */
  lemma KeptLabels(ns: seq<Node>, prefix: string, k: nat, k1: nat)
    requires |ns| > 0 && ns[0].Element? && !Extractable(ns[0].head)
    requires k1 == k + |Svgs(ns[0].children)|
    requires LabelsAgree(ns[0].children, prefix, k) && LabelsAgree(ns[1..], prefix, k1)
    ensures LabelsAgree(ns, prefix, k)
  {
    var sel, h, cs := Collects(), ns[0].head, ns[0].children;
    var inner, rest := Labels(ReplaceSvgs(cs, prefix, k).0), Labels(ReplaceSvgs(ns[1..], prefix, k1).0);
    assert inner == Substituted(Flagged(cs, sel, false), prefix, k);
    assert rest == Substituted(Flagged(ns[1..], sel, false), prefix, k1);
    assert Substituted(Flagged(ns, sel, false), prefix, k) == [Open(h, |cs|)] + inner + rest by {
      KeptSplit(ns, prefix, k, k1, false);
      SubstituteHead(h, |cs|, false, prefix, k);
    }
    assert Labels(ReplaceSvgs(ns, prefix, k).0) == [Open(h, |cs|)] + inner + rest by {
      KeptFirst(ns, prefix, k, k1);
    }
  }

  /** What the entry of an element becomes, above or outside any collected
      svg. */
  lemma SubstituteHead(h: Head, n: nat, under: bool, prefix: string, k: nat)
    ensures Substitute((Open(h, n), under), prefix, k)
         == if under then [] else if Extractable(h) then [Open(ImgHead(prefix, k), 0)] else [Open(h, n)]
  {
  }

  /** The flagged document of a forest starting with a collected svg, in
      its three parts: the svg, what it holds, and the rest. */
  lemma ReplacedSplit(ns: seq<Node>, prefix: string, k: nat, k1: nat, under: bool)
    requires |ns| > 0 && ns[0].Element? && Extractable(ns[0].head)
    requires k1 == k + 1 + |Svgs(ns[0].children)|
    ensures var sel, cs := Collects(), ns[0].children;
      Substituted(Flagged(ns, sel, under), prefix, k)
      == Substitute((Open(ns[0].head, |ns[0].children|), under), prefix, k) + Substituted(Flagged(cs, sel, true), prefix, k + 1)
         + Substituted(Flagged(ns[1..], sel, under), prefix, k1)
  {
    var sel := Collects();
    var h, cs := ns[0].head, ns[0].children;
    var head, inner, rest := [(Open(h, |cs|), under)], Flagged(cs, sel, true), Flagged(ns[1..], sel, under);
    ElementFirst(ns, sel, under);
    assert under || sel(h);
    assert Flagged(ns, sel, under) == head + inner + rest;
    CountFlagged(cs, true);
    Single((Open(h, |cs|), under), prefix, k);
    ThreeParts(head, inner, rest, prefix, k, k + 1, k1);
  }

  /** Substituting a document in three parts is substituting each part,
      the count running on. */
  lemma ThreeParts(a: seq<(Label, bool)>, b: seq<(Label, bool)>, c: seq<(Label, bool)>, prefix: string, k: nat, kb: nat, kc: nat)
    requires kb == k + CollectedCount(a) && kc == kb + CollectedCount(b)
    ensures Substituted(a + b + c, prefix, k)
         == Substituted(a, prefix, k) + Substituted(b, prefix, kb) + Substituted(c, prefix, kc)
  {
    SubstitutedAppend(a, b, prefix, k, kb);
    CountAppend(a, b);
    SubstitutedAppend(a + b, c, prefix, k, kc);
  }

  lemma Single(f: (Label, bool), prefix: string, k: nat)
    ensures Substituted([f], prefix, k) == Substitute(f, prefix, k)
    ensures CollectedCount([f]) == Counted(f)
  {
    assert [f][1..] == [];
  }

  /** The replaced tree of a forest starting with a collected svg, read in
      document order. */
  lemma ReplacedFirst(ns: seq<Node>, prefix: string, k: nat, k1: nat)
    requires |ns| > 0 && ns[0].Element? && Extractable(ns[0].head)
    requires k1 == k + 1 + |Svgs(ns[0].children)|
    ensures Labels(ReplaceSvgs(ns, prefix, k).0)
         == [Open(ImgHead(prefix, k), 0)] + [] + Labels(ReplaceSvgs(ns[1..], prefix, k1).0)
  {
    var r := ReplaceSvgs(ns, prefix, k);
    var after := ReplaceSvgs(ns[1..], prefix, k1);
    var img := Element(ImgHead(prefix, k), []);
    assert r.0 == [img] + after.0;
    ElementFirst(r.0, Collects(), false);
    assert r.0[1..] == after.0;
    assert Labels(img.children) == [];
  }

  /** The replaced tree of a forest starting with a kept element, read in
      document order. */
  lemma KeptFirst(ns: seq<Node>, prefix: string, k: nat, k1: nat)
    requires |ns| > 0 && ns[0].Element? && !Extractable(ns[0].head)
    requires k1 == k + |Svgs(ns[0].children)|
    ensures Labels(ReplaceSvgs(ns, prefix, k).0)
         == [Open(ns[0].head, |ns[0].children|)] + Labels(ReplaceSvgs(ns[0].children, prefix, k).0) + Labels(ReplaceSvgs(ns[1..], prefix, k1).0)
  {
    var inner := ReplaceSvgs(ns[0].children, prefix, k);
    var r := ReplaceSvgs(ns, prefix, k);
    var after := ReplaceSvgs(ns[1..], prefix, k1);
    var e := Element(ns[0].head, inner.0);
    assert r.0 == [e] + after.0;
    ElementFirst(r.0, Collects(), false);
    assert r.0[1..] == after.0;
  }

  /** The flagged document of a forest starting with a kept element, in
      its three parts: the element, its children, and the rest. */
  lemma KeptSplit(ns: seq<Node>, prefix: string, k: nat, k1: nat, under: bool)
    requires |ns| > 0 && ns[0].Element? && !Extractable(ns[0].head)
    requires k1 == k + |Svgs(ns[0].children)|
    ensures var sel, cs := Collects(), ns[0].children;
      Substituted(Flagged(ns, sel, under), prefix, k)
      == Substitute((Open(ns[0].head, |ns[0].children|), under), prefix, k) + Substituted(Flagged(cs, sel, under), prefix, k)
         + Substituted(Flagged(ns[1..], sel, under), prefix, k1)
  {
    var sel := Collects();
    var h, cs := ns[0].head, ns[0].children;
    var head, flags, rest := [(Open(h, |cs|), under)], Flagged(cs, sel, under), Flagged(ns[1..], sel, under);
    ElementFirst(ns, sel, under);
    assert (under || sel(h)) == under;
    assert Flagged(ns, sel, under) == head + flags + rest;
    CountFlagged(cs, under);
    Single((Open(h, |cs|), under), prefix, k);
    ThreeParts(head, flags, rest, prefix, k, k, k1);
  }

  /** A completed pass leaves the tree `ReplaceSvgsLabels` describes, svgs
      numbered from 1: each top-level collected svg is the `<img>` of its
      side file, and all else outside the collected svgs stays. */
  lemma ExtractTree(soup: seq<Node>, prefix: string, serialize: Node -> string)
    ensures var r := Extract(soup, prefix, serialize);
      r.Done? ==> Labels(r.soup) == Substituted(Flagged(soup, Collects(), false), prefix, 1) && |r.soup| == |soup|
  {
    ReplaceSvgsLabels(soup, prefix, 1);
  }

  /** After the replacement no collected svg is left: every element is
      either an element of the input that was not collected, or an `<img>`
      whose source is the side file of one of the svgs numbered `k` to
      `next - 1`. */
  lemma {:induction false} ReplaceSvgsHeads(ns: seq<Node>, prefix: string, k: nat)
    ensures var r := ReplaceSvgs(ns, prefix, k);
      forall h :: h in Heads(r.0) ==>
        (h in Heads(ns) && !Extractable(h)) || exists j :: k <= j < r.1 && h == ImgHead(prefix, j)
    decreases ForestSize(ns), 1
  {
    if |ns| > 0 {
      match ns[0]
      case Text(_) =>
        ReplaceSvgsHeads(ns[1..], prefix, k);
        var r, rest := ReplaceSvgs(ns, prefix, k), ReplaceSvgs(ns[1..], prefix, k);
        assert r.0 == [ns[0]] + rest.0;
        assert Heads(r.0) == Heads(rest.0) by { assert ([ns[0]] + rest.0)[1..] == rest.0; }
        assert Heads(ns) == Heads(ns[1..]);
      case Element(h, cs) =>
        if Extractable(h) {
          ReplacedSvgHeads(ns, prefix, k);
        } else {
          KeptElementHeads(ns, prefix, k);
        }
    }
  }

  /** The case of a collected svg first: its `<img>`, then the rest. */
  lemma {:induction false} ReplacedSvgHeads(ns: seq<Node>, prefix: string, k: nat)
    requires |ns| > 0 && ns[0].Element? && Extractable(ns[0].head)
    ensures var r := ReplaceSvgs(ns, prefix, k);
      forall h :: h in Heads(r.0) ==>
        (h in Heads(ns) && !Extractable(h)) || exists j :: k <= j < r.1 && h == ImgHead(prefix, j)
    decreases ForestSize(ns), 0
  {
    var h, cs := ns[0].head, ns[0].children;
    var r := ReplaceSvgs(ns, prefix, k);
    var k1 := k + 1 + |Svgs(cs)|;
    ReplaceSvgsHeads(ns[1..], prefix, k1);
    var rest := ReplaceSvgs(ns[1..], prefix, k1);
    ReplacedHeads(ns, prefix, k);
    assert k < k1 <= rest.1 == r.1;
    forall x | x in Heads(r.0)
      ensures (x in Heads(ns) && !Extractable(x)) || exists j :: k <= j < r.1 && x == ImgHead(prefix, j)
    {
      if x == ImgHead(prefix, k) {
        assert k <= k < r.1;
      } else {
        assert x in Heads(rest.0);
        if !(x in Heads(ns[1..]) && !Extractable(x)) {
          var j :| k1 <= j < rest.1 && x == ImgHead(prefix, j);
          assert k <= j < r.1;
        }
      }
    }
  }

  /** The heads after replacing a leading collected svg: its `<img>`, then
      those of the rest; and the heads before. */
  lemma ReplacedHeads(ns: seq<Node>, prefix: string, k: nat)
    requires |ns| > 0 && ns[0].Element? && Extractable(ns[0].head)
    ensures var k1 := k + 1 + |Svgs(ns[0].children)|;
      var r, rest := ReplaceSvgs(ns, prefix, k), ReplaceSvgs(ns[1..], prefix, k1);
      && Heads(r.0) == [ImgHead(prefix, k)] + Heads(rest.0) && r.1 == rest.1
      && Heads(ns) == [ns[0].head] + Heads(ns[0].children) + Heads(ns[1..])
  {
    var k1 := k + 1 + |Svgs(ns[0].children)|;
    var r, rest := ReplaceSvgs(ns, prefix, k), ReplaceSvgs(ns[1..], prefix, k1);
    var img := Element(ImgHead(prefix, k), []);
    assert r.0 == [img] + rest.0;
    assert ([img] + rest.0)[1..] == rest.0;
  }

  /** The case of any other element first: the element with its children
      replaced, then the rest. */
  lemma {:induction false} KeptElementHeads(ns: seq<Node>, prefix: string, k: nat)
    requires |ns| > 0 && ns[0].Element? && !Extractable(ns[0].head)
    ensures var r := ReplaceSvgs(ns, prefix, k);
      forall h :: h in Heads(r.0) ==>
        (h in Heads(ns) && !Extractable(h)) || exists j :: k <= j < r.1 && h == ImgHead(prefix, j)
    decreases ForestSize(ns), 0
  {
    var h, cs := ns[0].head, ns[0].children;
    var r := ReplaceSvgs(ns, prefix, k);
    var inner := ReplaceSvgs(cs, prefix, k);
    ReplaceSvgsHeads(cs, prefix, k);
    ReplaceSvgsHeads(ns[1..], prefix, inner.1);
    var rest := ReplaceSvgs(ns[1..], prefix, inner.1);
    var e := Element(h, inner.0);
    assert r.0 == [e] + rest.0;
    assert Heads(r.0) == [h] + Heads(inner.0) + Heads(rest.0) by {
      assert ([e] + rest.0)[1..] == rest.0;
    }
    assert Heads(ns) == [h] + Heads(cs) + Heads(ns[1..]);
  }

  /** A completed pass leaves only elements that were there and were not
      collected, and the `<img>` elements standing for collected svgs. */
  lemma ExtractHeads(soup: seq<Node>, prefix: string, serialize: Node -> string)
    ensures var r := Extract(soup, prefix, serialize);
      r.Done? ==> forall h :: h in Heads(r.soup) ==>
        (h in Heads(soup) && !Extractable(h)) || (h.tag == "img" && h.classes.None?)
  {
    var r := Extract(soup, prefix, serialize);
    if r.Done? {
      assert r.soup == ReplaceSvgs(soup, prefix, 1).0;
      ReplaceSvgsHeads(soup, prefix, 1);
    }
  }

  /** When every svg in the tree is class-less (the earlier passes removed
      the others), no svg at all survives the replacement. */
  lemma NoSvgSurvives(ns: seq<Node>, prefix: string, k: nat)
    requires forall h :: h in Heads(ns) && h.tag == "svg" ==> h.classes.None?
    ensures forall h :: h in Heads(ReplaceSvgs(ns, prefix, k).0) ==> h.tag != "svg"
  {
    ReplaceSvgsHeads(ns, prefix, k);
  }
}

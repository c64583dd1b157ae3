/**
 * The converter of hello-interview/parser.py: `preprocess` normalises a
 * saved lesson page (a fixed table of rewrite passes, then the svg
 * extraction), `parse_all` writes the Markdown file (a Setext title, an
 * optional metadata fence, and every later top-level section rendered in
 * order), and the two converter classes render callouts.
 *
 * The generic HTML-to-Markdown rendering of a section and the serialisation
 * of an svg belong to foreign libraries; they are the parameters `render`
 * and `serialize`.
 */
module Parser {
  import opened Strings
  import opened Dom
  import opened Rules
  import opened SvgExtraction

  // ---------------------------------------------------------------------
  // The passes of `preprocess`, in source order
  // ---------------------------------------------------------------------

  /** Inline code chips: `span` -> `code`, all attributes dropped. */
  const CHIP_CLASS := "MuiBox-root mui-1vu004u"
  const CHIP_PASS := Rule(TagClass("span", CHIP_CLASS), Replace("code", None))

  /** `div.name = 'blockquote'; div.attrs = {'class': kind}` for every `div`
      of the class string. */
  function ToBlockquote(cls: string, kind: string): Rule
  {
    Rule(TagClass("div", cls), Replace("blockquote", Some(kind)))
  }

  /** One retagging pass per (class string, kind) entry, in table order. */
  function BlockquotePasses(table: seq<(string, string)>): (r: seq<Rule>)
    ensures |r| == |table| && AllRenaming(r)
    ensures forall k :: 0 <= k < |table| ==> r[k] == ToBlockquote(table[k].0, table[k].1)
  {
    if |table| == 0 then []
    else BlockquotePasses(table[..|table| - 1]) + [ToBlockquote(table[|table| - 1].0, table[|table| - 1].1)]
  }

  /** The callout boxes; two class strings share the kind `warning`. */
  const CALLOUT_TABLE := [
    ("MuiBox-root mui-1ygn9bx", "info"),
    ("MuiBox-root mui-1147lff", "tip"),
    ("MuiBox-root mui-o9fqh4", "warning"),
    ("MuiBox-root mui-8d9r5j", "warning")]
  const CALLOUT_PASSES := BlockquotePasses(CALLOUT_TABLE)

  /** Image captions (already in the alt text) and buttons go, with all
      they hold. */
  const GRID_CAPTION := TagClass("div", "MuiGrid-root MuiGrid-item mui-1wxaqej")
  const BUTTON := TagOnly("button")
  const REMOVAL_PASSES := [Rule(GRID_CAPTION, Remove), Rule(BUTTON, Remove)]

  /** The class tokens every solution accordion has (without `Mui-expanded`);
      the last token tells them apart. */
  const ACCORDION_ROOT := "MuiPaper-root MuiPaper-elevation MuiPaper-rounded MuiPaper-elevation0 MuiAccordion-root MuiAccordion-rounded MuiAccordion-gutters"

  /** The solution accordions and the problem box. */
  const ACCORDION_TABLE := [
    (ACCORDION_ROOT + " mui-ifi55z", "solution-bad"),
    (ACCORDION_ROOT + " mui-nhbct3", "solution-good"),
    (ACCORDION_ROOT + " mui-11r69q9", "solution-great"),
    ("MuiBox-root mui-1fz7ihe", "problem")]
  const ACCORDION_PASSES := BlockquotePasses(ACCORDION_TABLE)

  const PARAGRAPH_PASS := Rule(TagClass("div", "MuiTypography-root MuiTypography-body1 mui-1p1f0ag"), Rename("p"))

  /** The accordion headers: the first marker class found picks the kind. */
  const PANEL_HEADER_ID := "panel1bh-header"
  const SOLUTION_MARKERS := [("mui-1ev8i4f", "solution-bad"), ("mui-guv1gb", "solution-good"), ("mui-3ujfba", "solution-great")]
  const PANEL_HEADING_PASS := Rule(IdIs(PANEL_HEADER_ID), MarkedHeading("h4", SOLUTION_MARKERS))

  /** "Approach" and "Challenge" labels, whatever their element. */
  const STRONG_PASS := Rule(AnyClass("MuiTypography-root MuiTypography-body1 mui-1quhbks"), Rename("strong"))

  /** Icons: svgs with a class attribute, and `data-slot="icon"` svgs. */
  const CLASSED_SVG := TagWithClassAttr("svg")
  const SVG_REMOVAL_PASSES := [Rule(CLASSED_SVG, Remove), Rule(TagAttr("svg", "data-slot", "icon"), Remove)]

  /** The passes up to the buttons, and the ones after. */
  const EARLY_PASSES := [CHIP_PASS] + CALLOUT_PASSES + REMOVAL_PASSES
  const LATE_PASSES := ACCORDION_PASSES + [PARAGRAPH_PASS, PANEL_HEADING_PASS, STRONG_PASS] + SVG_REMOVAL_PASSES
  const PASSES := EARLY_PASSES + LATE_PASSES

  /** `path.basename(file_path).split('.')[0]` */
  function ImagePrefix(filePath: string): (r: string)
    ensures forall i :: 0 <= i < |r| ==> r[i] != '/' && r[i] != '.'
  {
    BeforeFirstDot(Basename(filePath))
  }

  /** `preprocess`: the passes in order, then the svg extraction. */
  method Preprocess(filePath: string, html: seq<Node>, serialize: Node -> string) returns (r: Extraction)
    ensures r == Extract(ApplyRules(html, PASSES), ImagePrefix(filePath), serialize)
  {
    var soup := RunPasses(html, PASSES);
    r := ExtractSvgs(soup, ImagePrefix(filePath), serialize);
  }

  // ---------------------------------------------------------------------
  // What the passes do
  // ---------------------------------------------------------------------

  /** The kind of the first entry whose class string is `key`. */
  function Lookup(table: seq<(string, string)>, key: string): (r: Option<string>)
    ensures r.None? <==> forall k :: 0 <= k < |table| ==> table[k].0 != key
    ensures forall k ::
      (0 <= k < |table| && table[k].0 == key && forall j :: 0 <= j < k ==> table[j].0 != key)
      ==> r == Some(table[k].1)
  {
    if |table| == 0 then None
    else if table[0].0 == key then Some(table[0].1)
    else
      assert forall k :: 1 <= k < |table| ==> table[k] == table[1..][k - 1];
      Lookup(table[1..], key)
  }

  /** An entry added at the end only counts for a key no earlier entry has. */
  lemma {:induction false} LookupLast(table: seq<(string, string)>, key: string)
    requires |table| > 0
    ensures var init, last := table[..|table| - 1], table[|table| - 1];
      Lookup(table, key)
        == if Lookup(init, key).Some? then Lookup(init, key)
           else if last.0 == key then Some(last.1) else None
  {
    if |table| > 1 && table[0].0 != key {
      LookupLast(table[1..], key);
      assert table[1..][..|table[1..]| - 1] == table[..|table| - 1][1..];
    }
  }

  /** The reference for the retagging passes: a `div` whose whole class
      string is in the table becomes a `blockquote` whose only attribute is
      the class of the first such entry's kind; every other element stays
      as it is. */
  function AsBlockquote(h: Head, table: seq<(string, string)>): Head
  {
    if h.tag == "div" && h.classes.Some? then
      match Lookup(table, Join(h.classes.value, " "))
      case Some(kind) => Head("blockquote", Some([kind]), map[])
      case None => h
    else h
  }

  predicate Spaced(table: seq<(string, string)>)
  {
    forall k :: 0 <= k < |table| ==> ' ' in table[k].0
  }

  /** A table of retagging passes does to each element what `AsBlockquote`
      says: the passes run in order, and once an element is a blockquote no
      later pass (they all select `div`s) sees it. */
  lemma {:induction false} BlockquotePassesHead(table: seq<(string, string)>, h: Head)
    requires TokensWellFormed(h) && Spaced(table)
    ensures StepAll(BlockquotePasses(table), h) == AsBlockquote(h, table)
  {
    if |table| > 0 {
      var init, last := table[..|table| - 1], table[|table| - 1];
      var rules := BlockquotePasses(table);
      assert rules[..|rules| - 1] == BlockquotePasses(init);
      BlockquotePassesHead(init, h);
      ExactClassMatch(h, last.0);
      if h.tag == "div" && h.classes.Some? {
        LookupLast(table, Join(h.classes.value, " "));
      }
    }
  }

  /** A table of retagging passes over a whole tree: the text and the
      number of elements stay, and the i-th element becomes `AsBlockquote`
      of the i-th. */
  lemma BlockquoteTablePasses(ns: seq<Node>, table: seq<(string, string)>)
    requires WellFormed(ns) && Spaced(table)
    ensures var out := ApplyRules(ns, BlockquotePasses(table));
      && TextOf(out) == TextOf(ns) && |Heads(out)| == |Heads(ns)|
      && forall i :: 0 <= i < |Heads(ns)| ==> Heads(out)[i] == AsBlockquote(Heads(ns)[i], table)
  {
    RenamesHeads(ns, BlockquotePasses(table));
    forall i | 0 <= i < |Heads(ns)| {
      BlockquotePassesHead(table, Heads(ns)[i]);
    }
  }

  /** The chip pass: a `span` whose class string is exactly the chip's
      becomes `code` with no attributes; every other element, and all text,
      is left as it was. */
  lemma ChipPass(ns: seq<Node>)
    requires WellFormed(ns)
    ensures var out := ApplyRule(ns, CHIP_PASS);
      && TextOf(out) == TextOf(ns) && |Heads(out)| == |Heads(ns)|
      && forall i :: 0 <= i < |Heads(ns)| ==>
           var h := Heads(ns)[i];
           Heads(out)[i]
             == if h.tag == "span" && h.classes.Some? && Join(h.classes.value, " ") == CHIP_CLASS
                then Head("code", None, map[]) else h
  {
    RetagHeads(ns, CHIP_PASS);
    RetagText(ns, CHIP_PASS);
    assert CHIP_CLASS[11] == ' ';
    forall i | 0 <= i < |Heads(ns)| {
      ExactClassMatch(Heads(ns)[i], CHIP_CLASS);
    }
  }

  lemma CalloutTableSpaced()
    ensures Spaced(CALLOUT_TABLE)
  {
    forall k | 0 <= k < |CALLOUT_TABLE| ensures ' ' in CALLOUT_TABLE[k].0 {
      assert CALLOUT_TABLE[k].0[11] == ' ';
    }
  }

  /** The callout passes: each callout `div` becomes a blockquote of the
      kind of its exact class string, two strings both giving `warning`;
      nothing else changes. */
  lemma CalloutPasses(ns: seq<Node>)
    requires WellFormed(ns)
    ensures var out := ApplyRules(ns, CALLOUT_PASSES);
      && TextOf(out) == TextOf(ns) && |Heads(out)| == |Heads(ns)|
      && forall i :: 0 <= i < |Heads(ns)| ==> Heads(out)[i] == AsBlockquote(Heads(ns)[i], CALLOUT_TABLE)
  {
    CalloutTableSpaced();
    BlockquoteTablePasses(ns, CALLOUT_TABLE);
  }

  /** The callout kinds: `info`, `tip`, and `warning` for two class strings. */
  lemma CalloutKinds()
    ensures Lookup(CALLOUT_TABLE, "MuiBox-root mui-1ygn9bx") == Some("info")
    ensures Lookup(CALLOUT_TABLE, "MuiBox-root mui-1147lff") == Some("tip")
    ensures Lookup(CALLOUT_TABLE, "MuiBox-root mui-o9fqh4") == Some("warning")
    ensures Lookup(CALLOUT_TABLE, "MuiBox-root mui-8d9r5j") == Some("warning")
  {
  }

  lemma AccordionTableSpaced()
    ensures Spaced(ACCORDION_TABLE)
  {
    forall k | 0 <= k < |ACCORDION_TABLE| ensures ' ' in ACCORDION_TABLE[k].0 {
      if k == 0 {
        assert ACCORDION_TABLE[0].0[|ACCORDION_ROOT|] == ' ';
      } else if k == 1 {
        assert ACCORDION_TABLE[1].0[|ACCORDION_ROOT|] == ' ';
      } else if k == 2 {
        assert ACCORDION_TABLE[2].0[|ACCORDION_ROOT|] == ' ';
      } else {
        assert ACCORDION_TABLE[k].0[11] == ' ';
      }
    }
  }

  /** The accordion passes: every accordion or problem `div` becomes a
      blockquote of the kind of its exact class string; nothing else
      changes. */
  lemma AccordionPasses(ns: seq<Node>)
    requires WellFormed(ns)
    ensures var out := ApplyRules(ns, ACCORDION_PASSES);
      && TextOf(out) == TextOf(ns) && |Heads(out)| == |Heads(ns)|
      && forall i :: 0 <= i < |Heads(ns)| ==> Heads(out)[i] == AsBlockquote(Heads(ns)[i], ACCORDION_TABLE)
  {
    AccordionTableSpaced();
    BlockquoteTablePasses(ns, ACCORDION_TABLE);
  }

  /** The three accordion class strings are distinct, so each reaches its
      own kind: `solution-bad`, `solution-good`, `solution-great`; the
      problem box gives `problem`. */
  lemma AccordionKinds()
    ensures forall k :: 0 <= k < |ACCORDION_TABLE| ==> Lookup(ACCORDION_TABLE, ACCORDION_TABLE[k].0) == Some(ACCORDION_TABLE[k].1)
  {
    var t := ACCORDION_TABLE;
    DifferentSuffixes(ACCORDION_ROOT, " mui-ifi55z", " mui-nhbct3");
    DifferentSuffixes(ACCORDION_ROOT, " mui-ifi55z", " mui-11r69q9");
    DifferentSuffixes(ACCORDION_ROOT, " mui-nhbct3", " mui-11r69q9");
    assert forall k :: 0 <= k < 3 ==> t[k].0 != t[3].0 by {
      assert |t[3].0| < |ACCORDION_ROOT|;
    }
    forall k | 0 <= k < |t| ensures Lookup(t, t[k].0) == Some(t[k].1) {
      LookupFirst(t, k);
    }
  }

  /** The first entry with a key is the one `Lookup` finds. */
  lemma LookupFirst(table: seq<(string, string)>, k: nat)
    requires k < |table| && forall j :: 0 <= j < k ==> table[j].0 != table[k].0
    ensures Lookup(table, table[k].0) == Some(table[k].1)
  {
  }

  /** A shared start followed by different suffixes of one length gives
      different strings. */
  lemma DifferentSuffixes(root: string, x: string, y: string)
    requires x != y
    ensures root + x != root + y
  {
    assert (root + x)[|root|..] == x && (root + y)[|root|..] == y;
  }

  /** `div.attrs.get('class', [])` */
  function ClassList(h: Head): seq<string>
  {
    if h.classes.Some? then h.classes.value else []
  }

  /** Marker `k` is present and no earlier marker is. */
  predicate FirstMarkerIs(h: Head, k: int)
  {
    0 <= k < |SOLUTION_MARKERS| && SOLUTION_MARKERS[k].0 in ClassList(h)
    && forall j :: 0 <= j < k ==> SOLUTION_MARKERS[j].0 !in ClassList(h)
  }

  /** The accordion-header pass: an element with id `panel1bh-header`
      becomes `h4`; its attributes become just the class of the first
      marker found, or stay as they were when there is none. Elements with
      another id, and all text, are left alone. */
  lemma PanelHeadingPass(ns: seq<Node>)
    ensures var out := ApplyRule(ns, PANEL_HEADING_PASS);
      && TextOf(out) == TextOf(ns) && |Heads(out)| == |Heads(ns)|
      && forall i :: 0 <= i < |Heads(ns)| ==>
           var h, g := Heads(ns)[i], Heads(out)[i];
           && (("id" !in h.attrs || h.attrs["id"] != PANEL_HEADER_ID) ==> g == h)
           && ("id" in h.attrs && h.attrs["id"] == PANEL_HEADER_ID ==>
                 && ((forall k :: 0 <= k < |SOLUTION_MARKERS| ==> SOLUTION_MARKERS[k].0 !in ClassList(h))
                       ==> g == h.(tag := "h4"))
                 && (forall k :: FirstMarkerIs(h, k) ==> g == Head("h4", Some([SOLUTION_MARKERS[k].1]), map[])))
  {
    var out := ApplyRule(ns, PANEL_HEADING_PASS);
    RetagHeads(ns, PANEL_HEADING_PASS);
    RetagText(ns, PANEL_HEADING_PASS);
    forall i | 0 <= i < |Heads(ns)|
      ensures var h, g := Heads(ns)[i], Heads(out)[i];
        && (("id" !in h.attrs || h.attrs["id"] != PANEL_HEADER_ID) ==> g == h)
        && ("id" in h.attrs && h.attrs["id"] == PANEL_HEADER_ID ==>
              && ((forall k :: 0 <= k < |SOLUTION_MARKERS| ==> SOLUTION_MARKERS[k].0 !in ClassList(h))
                    ==> g == h.(tag := "h4"))
              && (forall k :: FirstMarkerIs(h, k) ==> g == Head("h4", Some([SOLUTION_MARKERS[k].1]), map[])))
    {
      var h := Heads(ns)[i];
      assert Heads(out)[i] == Step(PANEL_HEADING_PASS, h);
      var found := FirstMarker(ClassList(h), SOLUTION_MARKERS);
      forall k | FirstMarkerIs(h, k) ensures found == Some(SOLUTION_MARKERS[k].1) {
      }
    }
  }

  /** The two removal passes after the renames: the image captions go with
      all they hold, then the buttons with all they hold, and every other
      node stays in document order under the parent it had; no caption and
      no button is left. */
  lemma EarlyPassesRemove(html: seq<Node>)
    ensures var renamed := ApplyRules(html, [CHIP_PASS] + CALLOUT_PASSES);
      var noCaptions := Prune(renamed, GRID_CAPTION);
      var out := ApplyRules(html, EARLY_PASSES);
      && out == Prune(noCaptions, BUTTON)
      && Labels(noCaptions) == Survivors(Marked(renamed, Selector(GRID_CAPTION), false), Selector(GRID_CAPTION))
      && |noCaptions| == Staying(renamed, Selector(GRID_CAPTION))
      && Labels(out) == Survivors(Marked(noCaptions, Selector(BUTTON), false), Selector(BUTTON))
      && |out| == Staying(noCaptions, Selector(BUTTON))
      && forall h :: h in Heads(out) ==> !Matches(GRID_CAPTION, h) && !Matches(BUTTON, h)
  {
    var front := [CHIP_PASS] + CALLOUT_PASSES;
    var gridRule, buttonRule := Rule(GRID_CAPTION, Remove), Rule(BUTTON, Remove);
    var upToGrid := front + [gridRule];
    assert EARLY_PASSES == upToGrid + [buttonRule];
    assert upToGrid[..|upToGrid| - 1] == front;
    var afterGrid := ApplyRules(html, upToGrid);
    assert afterGrid == Prune(ApplyRules(html, front), GRID_CAPTION);
    assert ApplyRules(html, EARLY_PASSES) == Prune(afterGrid, BUTTON);
    PruneLabels(ApplyRules(html, front), GRID_CAPTION);
    PruneLabels(afterGrid, BUTTON);
    PruneHeads(ApplyRules(html, front), GRID_CAPTION);
    PruneHeads(afterGrid, BUTTON);
    SubseqMembers(Heads(Prune(afterGrid, BUTTON)), Heads(afterGrid));
  }

  /** None of the later passes brings an image caption or a button back;
      the last two leave no svg with a class attribute. */
  lemma LatePassesKeep(mid: seq<Node>)
    requires forall h :: h in Heads(mid) ==> !Matches(GRID_CAPTION, h) && !Matches(BUTTON, h)
    ensures forall h :: h in Heads(ApplyRules(mid, LATE_PASSES)) ==>
      !Matches(GRID_CAPTION, h) && !Matches(BUTTON, h) && !Matches(CLASSED_SVG, h)
  {
    assert forall k :: 0 <= k < |LATE_PASSES| ==> CannotCreate(LATE_PASSES[k], GRID_CAPTION);
    assert forall k :: 0 <= k < |LATE_PASSES| ==> CannotCreate(LATE_PASSES[k], BUTTON);
    StaysAbsent(mid, LATE_PASSES, GRID_CAPTION);
    StaysAbsent(mid, LATE_PASSES, BUTTON);
    var body := ACCORDION_PASSES + [PARAGRAPH_PASS, PANEL_HEADING_PASS, STRONG_PASS];
    var classRule, iconRule := SVG_REMOVAL_PASSES[0], SVG_REMOVAL_PASSES[1];
    assert LATE_PASSES == (body + [classRule]) + [iconRule];
    assert (body + [classRule])[..|body|] == body;
    var beforeIcons := ApplyRules(mid, body + [classRule]);
    assert beforeIcons == Prune(ApplyRules(mid, body), CLASSED_SVG);
    assert ApplyRules(mid, LATE_PASSES) == Prune(beforeIcons, iconRule.matcher);
    PruneHeads(ApplyRules(mid, body), CLASSED_SVG);
    PruneHeads(beforeIcons, iconRule.matcher);
    SubseqMembers(Heads(Prune(beforeIcons, iconRule.matcher)), Heads(beforeIcons));
  }

  /** After `preprocess` no button, no image-caption `div` and no svg is
      left anywhere in the tree. */
  lemma PreprocessRemoves(filePath: string, html: seq<Node>, serialize: Node -> string)
    ensures var r := Extract(ApplyRules(html, PASSES), ImagePrefix(filePath), serialize);
      r.Done? ==> forall h :: h in Heads(r.soup) ==>
        h.tag != "svg" && h.tag != "button" && !Matches(GRID_CAPTION, h)
  {
    PassesRemove(html);
    ExtractLeavesNoSvg(ApplyRules(html, PASSES), ImagePrefix(filePath), serialize);
  }

  /** The passes before the svg step leave no button, no image caption and
      no svg with a class attribute. */
  lemma PassesRemove(html: seq<Node>)
    ensures forall h :: h in Heads(ApplyRules(html, PASSES)) ==>
      !Matches(GRID_CAPTION, h) && !Matches(BUTTON, h) && !Matches(CLASSED_SVG, h)
  {
    ApplyRulesAppend(html, EARLY_PASSES, LATE_PASSES);
    EarlyPassesRemove(html);
    LatePassesKeep(ApplyRules(html, EARLY_PASSES));
  }

  /** The svg step on such a tree leaves no svg at all, and brings no
      button or image caption. */
  lemma ExtractLeavesNoSvg(soup: seq<Node>, prefix: string, serialize: Node -> string)
    requires forall h :: h in Heads(soup) ==>
      !Matches(GRID_CAPTION, h) && !Matches(BUTTON, h) && !Matches(CLASSED_SVG, h)
    ensures var r := Extract(soup, prefix, serialize);
      r.Done? ==> forall h :: h in Heads(r.soup) ==>
        h.tag != "svg" && h.tag != "button" && !Matches(GRID_CAPTION, h)
  {
    var r := Extract(soup, prefix, serialize);
    ExtractHeads(soup, prefix, serialize);
    if r.Done? {
      forall h | h in Heads(r.soup) ensures h.tag != "svg" && h.tag != "button" && !Matches(GRID_CAPTION, h) {
        LeftHeadClean(h);
      }
    }
  }

  /** An element left after the passes and the extraction is neither an
      svg, nor a button, nor a grid caption. */
  lemma LeftHeadClean(h: Head)
    requires (!Matches(GRID_CAPTION, h) && !Matches(BUTTON, h) && !Matches(CLASSED_SVG, h) && !Extractable(h))
          || (h.tag == "img" && h.classes.None?)
    ensures h.tag != "svg" && h.tag != "button" && !Matches(GRID_CAPTION, h)
  {
  }

  // ---------------------------------------------------------------------
  // Rendering
  // ---------------------------------------------------------------------

  /** `MyConverter.convert_blockquote`: the class tokens joined by spaces
      right after an opening `:::`, then the rendered text, then a closing
      `:::` and a blank line. */
  function FencedBlockquote(classes: seq<string>, text: string): string
  {
    ":::" + Join(classes, " ") + text + ":::\n\n"
  }

  /** The fence can be taken apart again: the opening holds the classes,
      the closing is fixed, and what lies between is the text, unchanged. */
  lemma FencedBlockquoteParts(classes: seq<string>, text: string)
    ensures var s, opening := FencedBlockquote(classes, text), ":::" + Join(classes, " ");
      && |s| == |opening| + |text| + 5
      && s[..|opening|] == opening
      && s[|opening|..|s| - 5] == text
      && s[|s| - 5..] == ":::\n\n"
  {
  }

  /** The alert prefix of `GitHubMarkdownConverter`, by joined class string. */
  const GITHUB_PREFIXES: map<string, string> := map[
    "info" := "[!NOTE]",
    "tip" := "[!TIP]",
    "warning" := "[!CAUTION]",
    "solution.bad" := "[!WARNING]",
    "solution.good" := "[!IMPORTANT]",
    "solution.great" := "[!IMPORTANT]"]

  /** `prefix.get(custom_class, "")` */
  function GitHubPrefix(classString: string): string
  {
    if classString in GITHUB_PREFIXES then GITHUB_PREFIXES[classString] else ""
  }

  /** `GitHubMarkdownConverter.convert_blockquote`; `generic` is the
      blockquote as the library renders it. */
  function GitHubBlockquote(classes: seq<string>, generic: string): string
  {
    "\n> " + GitHubPrefix(Join(classes, " ")) + generic
  }

  /** The prefix lookup is total: exactly the six table keys get a
      non-empty prefix, and every other class string (`problem` among them)
      gets none. */
  lemma GitHubPrefixTotal(classString: string)
    ensures GitHubPrefix(classString) != "" <==>
      classString in {"info", "tip", "warning", "solution.bad", "solution.good", "solution.great"}
    ensures GitHubPrefix("problem") == ""
    ensures GitHubBlockquote(["info"], "") == "\n> [!NOTE]"
  {
  }

  /** As written, the table keys of the solutions are dotted while the
      passes above emit hyphenated kinds: every solution callout that
      `preprocess` produces gets no alert prefix. */
  lemma SolutionCalloutsUnprefixed(k: nat)
    requires k < |ACCORDION_TABLE| && ACCORDION_TABLE[k].1 != "problem"
    ensures GitHubPrefix(ACCORDION_TABLE[k].1) == ""
    ensures GitHubBlockquote([ACCORDION_TABLE[k].1], "") == "\n> "
  {
  }

  /** The prefix table keyed by the kinds `preprocess` emits. */
  const CALLOUT_PREFIXES: map<string, string> := map[
    "info" := "[!NOTE]",
    "tip" := "[!TIP]",
    "warning" := "[!CAUTION]",
    "solution-bad" := "[!WARNING]",
    "solution-good" := "[!IMPORTANT]",
    "solution-great" := "[!IMPORTANT]"]

  function CalloutPrefix(kind: string): string
  {
    if kind in CALLOUT_PREFIXES then CALLOUT_PREFIXES[kind] else ""
  }

  /** `GitHubMarkdownConverter.convert_blockquote` with the table keyed as
      `preprocess` emits. */
  function FixedGitHubBlockquote(classes: seq<string>, generic: string): string
  {
    "\n> " + CalloutPrefix(Join(classes, " ")) + generic
  }

  /** With the table keyed by the emitted kinds, every callout `preprocess`
      emits except `problem` gets a prefix: the same as before for `info`,
      `tip` and `warning`, and for each solution kind the prefix the
      source's table gives its dotted spelling. */
  lemma EmittedKindsPrefixed()
    ensures forall k :: 0 <= k < |CALLOUT_TABLE| ==>
      CalloutPrefix(CALLOUT_TABLE[k].1) == GitHubPrefix(CALLOUT_TABLE[k].1) != ""
    ensures forall k :: 0 <= k < |ACCORDION_TABLE| && ACCORDION_TABLE[k].1 != "problem" ==>
      CalloutPrefix(ACCORDION_TABLE[k].1) != ""
    ensures CalloutPrefix("solution-bad") == GitHubPrefix("solution.bad")
    ensures CalloutPrefix("solution-good") == GitHubPrefix("solution.good")
    ensures CalloutPrefix("solution-great") == GitHubPrefix("solution.great")
    ensures FixedGitHubBlockquote(["solution-bad"], "") == "\n> [!WARNING]"
  {
  }

  // ---------------------------------------------------------------------
  // parse_all
  // ---------------------------------------------------------------------

  /** Where `parse_all` raises: no `<body>`, no element in it, no `<h1>` in
      its first element, or (in `preprocess`) a viewbox too short to give a
      missing dimension. */
  datatype ParseError = NoBody | NoMetadata | NoTitle | ShortViewBox

  /** What `parse_all` reads off the normalised page: the metadata from the
      first element child of `<body>`, the sections from the rest. */
  datatype Page = Page(title: string, author: Option<string>, difficulty: Option<string>, sections: seq<Node>)

  /** `.text` of a `select_one` result that may be missing. */
  function TextOfFound(n: Option<Node>): Option<string>
  {
    match n
    case None => None
    case Some(e) => Some(TextOf([e]))
  }

  const AUTHOR_CLASS := "mui-ltrqv0"
  const DIFFICULTY_CLASS := "mui-su24yt"

  function ReadPage(soup: seq<Node>): Result<Page, ParseError>
  {
    match FindFirst(soup, TagIs("body"))
    case None => Err(NoBody)
    case Some(body) =>
      var children := ElementsOf(body.children);
      if |children| == 0 then Err(NoMetadata)
      else
        var metadata := children[0].children;
        match FindFirst(metadata, TagIs("h1"))
        case None => Err(NoTitle)
        case Some(h1) =>
          Ok(Page(TextOf([h1]),
                  TextOfFound(FindFirst(metadata, HasClass(AUTHOR_CLASS))),
                  TextOfFound(FindFirst(metadata, HasClass(DIFFICULTY_CLASS))),
                  children[1..]))
  }

  /** The page is refused for a missing `<body>` exactly when no element of
      the tree is a `body`; for the first `body`, for an empty one exactly
      when it has no element child, and for a missing title exactly when
      its first element child holds no `h1`. A page that is read has the
      first `h1`'s text as its title and the later element children of the
      body, in order, as its sections. */
  lemma ReadPageOutcome(soup: seq<Node>)
    ensures ReadPage(soup) == Err(NoBody) <==> forall h :: h in Heads(soup) ==> h.tag != "body"
    ensures FindFirst(soup, TagIs("body")).Some? ==>
      var body := FindFirst(soup, TagIs("body")).value;
      var children := ElementsOf(body.children);
      && (ReadPage(soup) == Err(NoMetadata) <==> forall c :: c in body.children ==> !c.Element?)
      && (ReadPage(soup) == Err(NoTitle) <==>
            |children| > 0 && forall h :: h in Heads(children[0].children) ==> h.tag != "h1")
      && (ReadPage(soup).Ok? ==>
            var h1 := FindFirst(children[0].children, TagIs("h1"));
            && h1.Some?
            && ReadPage(soup).value.title == TextOf([h1.value])
            && ReadPage(soup).value.sections == children[1..])
  {
    FindFirstNone(soup, TagIs("body"));
    match FindFirst(soup, TagIs("body"))
    case None =>
    case Some(body) =>
      var children := ElementsOf(body.children);
      ElementsOfMembers(body.children);
      if |children| > 0 {
        assert children[0] in children;
        FindFirstNone(children[0].children, TagIs("h1"));
      }
  }

  /** The header: the title, a newline, `=` as many times as the title is
      long, and the fenced metadata block when there is an author or a
      difficulty. */
  function Header(title: string, author: Option<string>, difficulty: Option<string>): string
  {
    title + "\n" + Repeat('=', |title|)
    + if author.Some? || difficulty.Some? then "\n\n```" + MetadataLines(author, difficulty) + "\n```\n\n"
      else ""
  }

  /** Inside the fence: the author line, then the difficulty line
      upper-cased, each when present. */
  function MetadataLines(author: Option<string>, difficulty: Option<string>): string
  {
    (if author.Some? then "\nAuthor: " + author.value else "")
    + (if difficulty.Some? then "\nLevel : " + Upper(difficulty.value) else "")
  }

  /** The Setext underline is exactly as long as the title, and the fence
      follows it exactly when author or difficulty is there. */
  lemma HeaderUnderline(title: string, author: Option<string>, difficulty: Option<string>)
    ensures var s, n := Header(title, author, difficulty), 2 * |title| + 1;
      && |s| >= n
      && s[..|title|] == title && s[|title|] == '\n'
      && (forall i :: |title| < i < n ==> s[i] == '=')
      && (|s| == n <==> author.None? && difficulty.None?)
  {
    UnderlineParts(title, Header(title, author, difficulty)[2 * |title| + 1..]);
  }

  /** Inside the fence come the author line, then the difficulty line
      upper-cased, each when present. */
  lemma HeaderFence(title: string, author: Option<string>, difficulty: Option<string>)
    requires author.Some? || difficulty.Some?
    ensures var s, n := Header(title, author, difficulty), 2 * |title| + 1;
      && |s| >= n + 11
      && s[n..n + 5] == "\n\n```" && s[|s| - 6..] == "\n```\n\n"
      && s[n + 5..|s| - 6]
         == (if author.Some? then "\nAuthor: " + author.value else "")
            + (if difficulty.Some? then "\nLevel : " + Upper(difficulty.value) else "")
  {
    var underline, lines := title + "\n" + Repeat('=', |title|), MetadataLines(author, difficulty);
    assert |underline| == 2 * |title| + 1;
    assert Header(title, author, difficulty) == underline + ("\n\n```" + lines + "\n```\n\n");
    FenceParts(underline, lines);
  }

  /** The title, its newline and its underline open any text that starts
      with them. */
  lemma UnderlineParts(title: string, rest: string)
    ensures var s := title + "\n" + Repeat('=', |title|) + rest;
      && s[..|title|] == title && s[|title|] == '\n'
      && forall i :: |title| < i < 2 * |title| + 1 ==> s[i] == '='
  {
    LinePrefix(title, Repeat('=', |title|), rest);
  }

  lemma LinePrefix(title: string, line: string, rest: string)
    requires |line| == |title| && forall i :: 0 <= i < |line| ==> line[i] == '='
    ensures var s := title + "\n" + line + rest;
      && s[..|title|] == title && s[|title|] == '\n'
      && forall i :: |title| < i < 2 * |title| + 1 ==> s[i] == '='
  {
    var s := title + "\n" + line + rest;
    var n := |title| + 1;
    assert s == (title + "\n") + (line + rest);
    assert s[..|title|] == title;
    forall i | n <= i < n + |line| ensures s[i] == '=' {
      assert s[i] == (line + rest)[i - n];
    }
  }

  /** Where the fence and its contents sit after a prefix `u`. */
  lemma FenceParts(u: string, inner: string)
    ensures var s := u + ("\n\n```" + inner + "\n```\n\n");
      && s[|u|..|u| + 5] == "\n\n```" && s[|s| - 6..] == "\n```\n\n"
      && s[|u| + 5..|s| - 6] == inner
  {
    var tail := "\n\n```" + inner + "\n```\n\n";
    var s := u + tail;
    assert s[|u|..|u| + 5] == tail[..5];
    assert s[|s| - 6..] == tail[|tail| - 6..];
    assert s[|u| + 5..|s| - 6] == tail[5..|tail| - 6];
  }

  /** The rendered sections in order, each followed by `terminator`. */
  function Chunks(sections: seq<Node>, render: Node -> string, terminator: string): string
  {
    if |sections| == 0 then ""
    else Chunks(sections[..|sections| - 1], render, terminator) + render(sections[|sections| - 1]) + terminator
  }

  /** Rendering a document split in two is rendering the halves one after
      the other: the output keeps the document order. */
  lemma ChunksNext(sections: seq<Node>, i: nat, render: Node -> string, terminator: string)
    requires i < |sections|
    ensures Chunks(sections[..i + 1], render, terminator)
         == Chunks(sections[..i], render, terminator) + render(sections[i]) + terminator
  {
    assert sections[..i + 1][..i] == sections[..i];
  }

  lemma {:induction false} ChunksAppend(a: seq<Node>, b: seq<Node>, render: Node -> string, terminator: string)
    ensures Chunks(a + b, render, terminator) == Chunks(a, render, terminator) + Chunks(b, render, terminator)
  {
    if |b| == 0 {
      assert a + b == a;
    } else {
      assert (a + b)[..|a + b| - 1] == a + b[..|b| - 1];
      ChunksAppend(a, b[..|b| - 1], render, terminator);
    }
  }

  /** `file_path.replace('.html', '.md')` */
  function OutputPath(filePath: string): string
  {
    ReplaceAll(filePath, ".html", ".md")
  }

  /** A path with `.html` only at its end gets `.md` there instead. */
  lemma {:induction false} OutputPathOfHtml(stem: string)
    requires !Contains(stem, ".html")
    ensures OutputPath(stem + ".html") == stem + ".md"
  {
    var s := stem + ".html";
    if |stem| == 0 {
      assert s == ".html";
      assert s[5..] == "";
    } else {
      assert !(".html" <= s) by {
        if |stem| >= 5 {
          assert s[..5] == stem[..5];
        } else {
          assert s[|stem|] == '.';
        }
      }
      assert s[1..] == stem[1..] + ".html";
      OutputPathOfHtml(stem[1..]);
      assert [s[0]] + (stem[1..] + ".md") == stem + ".md";
    }
  }

  datatype Written = Written(path: string, text: string)

  /** What `parse_all` writes for a normalised page: the header, then each
      later top-level section followed by a blank line, to the `.md` path. */
  function Markdown(filePath: string, soup: seq<Node>, render: Node -> string): Result<Written, ParseError>
  {
    match ReadPage(soup)
    case Err(e) => Err(e)
    case Ok(p) => Ok(Written(OutputPath(filePath), Header(p.title, p.author, p.difficulty) + Chunks(p.sections, render, "\n\n")))
  }

  /** The writing half of `parse_all`: read the title and metadata, then
      write the header and the sections one by one. */
  method WriteMarkdown(filePath: string, soup: seq<Node>, render: Node -> string)
    returns (out: Result<Written, ParseError>)
    ensures out == Markdown(filePath, soup, render)
  {
    var page := ReadPage(soup);
    if page.Err? {
      return Err(page.error);
    }
    var p := page.value;
    var header := Header(p.title, p.author, p.difficulty);
    var text := AppendChunks(header, p.sections, render, "\n\n");
    out := Ok(Written(OutputPath(filePath), text));
  }

  /** The section loop of `parse_all`: each section rendered and written,
      followed by the terminator. */
  method AppendChunks(text: string, sections: seq<Node>, render: Node -> string, terminator: string)
    returns (out: string)
    ensures out == text + Chunks(sections, render, terminator)
  {
    out := text;
    for i := 0 to |sections|
      invariant out == text + Chunks(sections[..i], render, terminator)
    {
      ChunksNext(sections, i, render, terminator);
      out := out + render(sections[i]) + terminator;
    }
    assert sections[..|sections|] == sections;
  }

  /** `parse_all`: normalise the page (its side files are written whatever
      comes next), then write the Markdown file. */
  method ParseAll(filePath: string, html: seq<Node>, serialize: Node -> string, render: Node -> string)
    returns (files: seq<SideFile>, out: Result<Written, ParseError>)
    ensures var pre := Extract(ApplyRules(html, PASSES), ImagePrefix(filePath), serialize);
      && files == pre.files
      && out == if pre.Failed? then Err(ShortViewBox) else Markdown(filePath, pre.soup, render)
  {
    var pre := Preprocess(filePath, html, serialize);
    files := pre.files;
    if pre.Failed? {
      return files, Err(ShortViewBox);
    }
    out := WriteMarkdown(filePath, pre.soup, render);
  }
}

/**
 * The older converter, hello-interview/parser/parser.py. Its `preprocess`
 * runs the same chip, callout and removal passes as the newer one, then its
 * own accordion passes and the accordion-header pass, and has no svg step.
 * Its converter renders callouts and solution headings as raw HTML, and
 * `parse_all` writes every element child of the first element of the page,
 * each followed by a newline, to `output.md`.
 */
module LegacyParser {
  import opened Strings
  import opened Dom
  import opened Rules
  import Parser

  /** The expanded accordion's class tokens; only the `solution.bad` pass
      asks for `Mui-expanded`. */
  const EXPANDED_ACCORDION_ROOT := "MuiPaper-root MuiPaper-elevation MuiPaper-rounded MuiPaper-elevation0 MuiAccordion-root MuiAccordion-rounded Mui-expanded MuiAccordion-gutters"

  /** The accordion passes as written: the `solution.good` and
      `solution.great` entries name the same class string. */
  const ACCORDION_TABLE := [
    (EXPANDED_ACCORDION_ROOT + " mui-ifi55z", "solution.bad"),
    (Parser.ACCORDION_ROOT + " mui-11r69q9", "solution.good"),
    (Parser.ACCORDION_ROOT + " mui-11r69q9", "solution.great")]
  const ACCORDION_PASSES := Parser.BlockquotePasses(ACCORDION_TABLE)

  /** Position of the `solution.great` pass in `PASSES`. */
  const GREAT_PASS_INDEX := 1 + 4 + 2 + 2

  const PASSES :=
    [Parser.CHIP_PASS] + Parser.CALLOUT_PASSES + Parser.REMOVAL_PASSES + ACCORDION_PASSES
    + [Parser.PANEL_HEADING_PASS]

  lemma AccordionTableSpaced()
    ensures Parser.Spaced(ACCORDION_TABLE)
  {
    forall k | 0 <= k < |ACCORDION_TABLE| ensures ' ' in ACCORDION_TABLE[k].0 {
      if k == 0 {
        assert ACCORDION_TABLE[0].0[|EXPANDED_ACCORDION_ROOT|] == ' ';
      } else if k == 1 {
        assert ACCORDION_TABLE[1].0[|Parser.ACCORDION_ROOT|] == ' ';
      } else {
        assert ACCORDION_TABLE[2].0[|Parser.ACCORDION_ROOT|] == ' ';
      }
    }
  }

  /** The accordion passes as written, over a whole tree: each accordion
      `div` becomes what the first entry of its exact class string says;
      nothing else changes. */
  lemma AccordionPasses(ns: seq<Node>)
    requires WellFormed(ns)
    ensures var out := ApplyRules(ns, ACCORDION_PASSES);
      && TextOf(out) == TextOf(ns) && |Heads(out)| == |Heads(ns)|
      && forall i :: 0 <= i < |Heads(ns)| ==> Heads(out)[i] == Parser.AsBlockquote(Heads(ns)[i], ACCORDION_TABLE)
  {
    AccordionTableSpaced();
    Parser.BlockquoteTablePasses(ns, ACCORDION_TABLE);
  }

  /** What the table gives each class string: `solution.bad` only for the
      string with `Mui-expanded` (the newer file's string, without it, gets
      nothing), `solution.good` for the shared string, and `solution.great`
      for no class string at all. */
  lemma AccordionKinds(key: string)
    ensures Parser.Lookup(ACCORDION_TABLE, EXPANDED_ACCORDION_ROOT + " mui-ifi55z") == Some("solution.bad")
    ensures Parser.Lookup(ACCORDION_TABLE, Parser.ACCORDION_ROOT + " mui-ifi55z") == None
    ensures Parser.Lookup(ACCORDION_TABLE, Parser.ACCORDION_ROOT + " mui-11r69q9") == Some("solution.good")
    ensures Parser.Lookup(ACCORDION_TABLE, key) != Some("solution.great")
  {
    var t := ACCORDION_TABLE;
    Parser.DifferentSuffixes(Parser.ACCORDION_ROOT, " mui-ifi55z", " mui-11r69q9");
    ExpandedDiffers(" mui-ifi55z");
    ExpandedDiffers(" mui-11r69q9");
    Parser.LookupFirst(t, 0);
    Parser.LookupFirst(t, 1);
    if key == t[0].0 {
    } else if key == t[1].0 {
    } else {
      assert key != t[2].0;
    }
  }

  /** The expanded accordion's string is not the plain one with any
      suffix: they differ where `Mui-expanded` starts. */
  lemma ExpandedDiffers(suffix: string)
    ensures EXPANDED_ACCORDION_ROOT + " mui-ifi55z" != Parser.ACCORDION_ROOT + suffix
  {
    var i := |Parser.ACCORDION_ROOT| - 17;
    assert (EXPANDED_ACCORDION_ROOT + " mui-ifi55z")[i] != (Parser.ACCORDION_ROOT + suffix)[i];
  }

  /** A pass that renames every element it selects to something that pass
      cannot select again, followed by a pass with the same selector,
      leaves the second pass nothing to do. */
  lemma {:induction false} SameSelectorTwice(ns: seq<Node>, first: Rule, second: Rule)
    requires !first.action.Remove? && !second.action.Remove?
    requires first.matcher == second.matcher
    requires MatcherTag(first.matcher).Some? && first.action.tag != MatcherTag(first.matcher).value
    ensures RetagAll(RetagAll(ns, first), second) == RetagAll(ns, first)
  {
    var mid := RetagAll(ns, first);
    RetagHeads(ns, first);
    forall h | h in Heads(mid) ensures !Matches(second.matcher, h) {
      var i :| 0 <= i < |Heads(ns)| && h == Step(first, Heads(ns)[i]);
      StepLeavesUnselected(first, second.matcher, Heads(ns)[i]);
    }
    RetagNothing(mid, second);
  }

  /** One element after such a pass is not selected by its selector. */
  lemma StepLeavesUnselected(first: Rule, m: Matcher, h: Head)
    requires !first.action.Remove?
    requires first.matcher == m
    requires MatcherTag(m).Some? && first.action.tag != MatcherTag(m).value
    ensures !Matches(m, Step(first, h))
  {
    if Matches(m, h) {
      RewriteSetsTag(first.action, h);
      var g := Step(first, h);
      if Matches(m, g) {
        SelectedHasTag(m, g);
      }
    } else {
      assert Step(first, h) == h;
    }
  }

  /** As written, the `solution.great` pass is dead: taking it out of the
      table changes nothing, for every page. */
  lemma GreatPassIsDead(html: seq<Node>)
    ensures ApplyRules(html, PASSES)
         == ApplyRules(html, PASSES[..GREAT_PASS_INDEX] + PASSES[GREAT_PASS_INDEX + 1..])
  {
    var before := PASSES[..GREAT_PASS_INDEX];
    var great := PASSES[GREAT_PASS_INDEX];
    var panel := PASSES[GREAT_PASS_INDEX + 1];
    assert PASSES == before + [great] + [panel];
    assert PASSES[GREAT_PASS_INDEX + 1..] == [panel];
    assert (before + [great] + [panel])[..|before| + 1] == before + [great];
    assert (before + [panel])[..|before|] == before;
    var good := before[|before| - 1];
    assert before[..|before| - 1] + [good] == before;
    assert good == ACCORDION_PASSES[1] && great == ACCORDION_PASSES[2];
    SameSelectorTwice(ApplyRules(html, before[..|before| - 1]), good, great);
    assert ApplyRules(html, before + [great]) == ApplyRules(html, before);
  }

  // ---------------------------------------------------------------------
  // Rendering
  // ---------------------------------------------------------------------

  /** `MyConverter.convert_blockquote` of the older file: the callout as raw
      HTML, its classes joined by spaces. */
  function RawBlockquote(classes: seq<string>, text: string): string
  {
    "<blockquote class=\"" + Join(classes, " ") + "\">" + text + "</blockquote>\n\n"
  }

  /** The raw blockquote can be taken apart again: the opening tag holds the
      classes, and the text sits unchanged before the fixed closing. */
  lemma RawBlockquoteParts(classes: seq<string>, text: string)
    ensures var s, opening := RawBlockquote(classes, text), "<blockquote class=\"" + Join(classes, " ") + "\">";
      && |s| == |opening| + |text| + 15
      && s[..|opening|] == opening
      && s[|opening|..|s| - 15] == text
      && s[|s| - 15..] == "</blockquote>\n\n"
  {
  }

  predicate IsSolutionHeading(classes: seq<string>)
  {
    "solution-bad" in classes || "solution-good" in classes || "solution-great" in classes
  }

  /** `MyConverter.convert_h4`: a solution heading stays raw HTML, any other
      `h4` becomes a Markdown heading. */
  function RawH4(classes: seq<string>, text: string): string
  {
    if IsSolutionHeading(classes) then "<h4 class=\"" + Join(classes, " ") + "\">" + text + "</h4>\n\n"
    else "#### " + text + "\n\n"
  }

  /** The heading is raw HTML exactly when a solution class is present;
      either way the text is in it unchanged. */
  lemma RawH4Form(classes: seq<string>, text: string)
    ensures var s := RawH4(classes, text);
      && (s[0] == '<' <==> IsSolutionHeading(classes))
      && (!IsSolutionHeading(classes) ==> s == "#### " + text + "\n\n")
      && (IsSolutionHeading(classes) ==>
            var opening := "<h4 class=\"" + Join(classes, " ") + "\">";
            && |s| == |opening| + |text| + 7
            && s[..|opening|] == opening && s[|opening|..|s| - 7] == text && s[|s| - 7..] == "</h4>\n\n")
  {
  }

  /** Every heading the accordion-header pass marks renders as raw HTML. */
  lemma MarkedHeadingsStayRaw(k: nat, text: string)
    requires k < |Parser.SOLUTION_MARKERS|
    ensures RawH4([Parser.SOLUTION_MARKERS[k].1], text)
         == "<h4 class=\"" + Parser.SOLUTION_MARKERS[k].1 + "\">" + text + "</h4>\n\n"
  {
  }

  // ---------------------------------------------------------------------
  // parse_all
  // ---------------------------------------------------------------------

  /** `soup.find(True)` finds nothing: the page has no element. */
  datatype LegacyError = NoElement

  const OUTPUT_PATH := "output.md"

  /** `soup.find(True)` is the first element in document order, which is
      the first top-level element. */
  lemma {:induction false} FirstElementIsTopLevel(ns: seq<Node>)
    ensures FindFirst(ns, AnyTag) == if |ElementsOf(ns)| == 0 then None else Some(ElementsOf(ns)[0])
  {
    if |ns| > 0 {
      FirstElementIsTopLevel(ns[1..]);
    }
  }

  /** What `parse_all` writes: each element child of the first element,
      rendered, followed by a newline. */
  function Output(soup: seq<Node>, render: Node -> string): Result<Parser.Written, LegacyError>
  {
    match FindFirst(soup, AnyTag)
    case None => Err(NoElement)
    case Some(root) => Ok(Parser.Written(OUTPUT_PATH, Parser.Chunks(ElementsOf(root.children), render, "\n")))
  }

  method ParseAll(html: seq<Node>, render: Node -> string) returns (out: Result<Parser.Written, LegacyError>)
    ensures out == Output(ApplyRules(html, PASSES), render)
  {
    var soup := RunPasses(html, PASSES);
    var root := FindFirst(soup, AnyTag);
    if root.None? {
      return Err(NoElement);
    }
    var children := ElementsOf(root.value.children);
    var text := Parser.AppendChunks("", children, render, "\n");
    assert text == Parser.Chunks(children, render, "\n") by {
      assert "" + Parser.Chunks(children, render, "\n") == Parser.Chunks(children, render, "\n");
    }
    out := Ok(Parser.Written(OUTPUT_PATH, text));
  }
}

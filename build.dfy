/**
 * The book builder, hello-interview/build.py. The `content` directory is a
 * list of entries in directory-listing order; section directories hold
 * files whose contents may be unreadable. The builder derives section and
 * chapter titles, writes `output/temp/generated_toc.md`, copies every
 * section's images and chapters into `output/temp/<section>/`, and hands
 * pandoc one command line naming the chapters in sorted order.
 */
module Build {
  import opened Strings
  import opened Ordering

  // ---------------------------------------------------------------------
  // The content directory
  // ---------------------------------------------------------------------

  /** A file and what reading it gives (`None`: reading raises). */
  datatype FileEntry = FileEntry(name: string, data: Option<string>)

  /** A section directory under `content/`. Sub-directories of a section
      are not part of this model. */
  datatype Section = Section(name: string, files: seq<FileEntry>)

  datatype Entry = File(file: FileEntry) | Dir(section: Section)

  function SectionName(s: Section): string { s.name }
  function FileName(f: FileEntry): string { f.name }

  /** The entries of `content/` that are directories, in listing order. */
  function Dirs(content: seq<Entry>): (r: seq<Section>)
    ensures forall s :: s in r <==> Dir(s) in content
  {
    if |content| == 0 then []
    else (if content[0].Dir? then [content[0].section] else []) + Dirs(content[1..])
  }

  /** `get_section_dirs`: the section directories, sorted by name. */
  function SectionDirs(content: seq<Entry>): seq<Section>
  {
    SortBy(Dirs(content), SectionName)
  }

  lemma SectionDirsSorted(content: seq<Entry>)
    ensures SortedBy(SectionDirs(content), SectionName)
    ensures multiset(SectionDirs(content)) == multiset(Dirs(content))
    ensures forall s :: s in SectionDirs(content) <==> Dir(s) in content
  {
    SortByCorrect(Dirs(content), SectionName);
    forall s ensures s in SectionDirs(content) <==> s in Dirs(content) {
      assert s in SectionDirs(content) <==> s in multiset(SectionDirs(content));
    }
  }

  /** A name `*.md` matches. */
  predicate IsMarkdown(f: FileEntry)
  {
    |f.name| >= 3 && f.name[|f.name| - 3..] == ".md"
  }

  function MarkdownFiles(files: seq<FileEntry>): (r: seq<FileEntry>)
    ensures forall f :: f in r <==> f in files && IsMarkdown(f)
  {
    if |files| == 0 then []
    else (if IsMarkdown(files[0]) then [files[0]] else []) + MarkdownFiles(files[1..])
  }

  /** `get_chapter_files`: the section's `*.md` files, sorted by name. */
  function ChapterFiles(s: Section): seq<FileEntry>
  {
    SortBy(MarkdownFiles(s.files), FileName)
  }

  lemma ChapterFilesSorted(s: Section)
    ensures SortedBy(ChapterFiles(s), FileName)
    ensures multiset(ChapterFiles(s)) == multiset(MarkdownFiles(s.files))
    ensures forall f :: f in ChapterFiles(s) <==> f in s.files && IsMarkdown(f)
  {
    SortByCorrect(MarkdownFiles(s.files), FileName);
    forall f ensures f in ChapterFiles(s) <==> f in MarkdownFiles(s.files) {
      assert f in ChapterFiles(s) <==> f in multiset(ChapterFiles(s));
    }
  }

  /** `Path.suffix`: from the last dot, unless that dot starts or ends the
      name. */
  function Suffix(name: string): string
  {
    match LastIndexOf(name, '.')
    case None => ""
    case Some(i) => if 0 < i < |name| - 1 then name[i..] else ""
  }

  /** `Path.stem`: the name without its suffix. */
  function Stem(name: string): string
  {
    match LastIndexOf(name, '.')
    case None => name
    case Some(i) => if 0 < i < |name| - 1 then name[..i] else name
  }

  /** The last dot of `name` is at `i`. */
  predicate LastDot(name: string, i: nat)
  {
    i < |name| && name[i] == '.' && forall j :: i < j < |name| ==> name[j] != '.'
  }

  /** The stem and the suffix split the name at its last dot when that dot
      neither starts nor ends the name; otherwise the suffix is empty and
      the stem is the whole name. */
  lemma StemSuffix(name: string)
    ensures Stem(name) + Suffix(name) == name
    ensures forall i: nat :: LastDot(name, i) ==>
      if 0 < i < |name| - 1 then Suffix(name) == name[i..] && Stem(name) == name[..i]
      else Suffix(name) == "" && Stem(name) == name
    ensures (forall j :: 0 <= j < |name| ==> name[j] != '.') ==> Suffix(name) == "" && Stem(name) == name
  {
    match LastIndexOf(name, '.')
    case None =>
    case Some(i) =>
      forall i': nat | LastDot(name, i') ensures i' == i {
      }
      if 0 < i < |name| - 1 {
        assert name[..i] + name[i..] == name;
      }
  }

  const IMAGE_EXTENSIONS: set<string> := {".png", ".jpg", ".jpeg", ".gif", ".svg"}

  predicate IsImage(f: FileEntry)
  {
    Lower(Suffix(f.name)) in IMAGE_EXTENSIONS
  }

  /** `get_image_files`: the section's files whose lower-cased suffix is an
      image extension, in listing order. */
  function ImageFiles(files: seq<FileEntry>): (r: seq<FileEntry>)
    ensures |r| <= |files|
    ensures forall f :: f in r <==> f in files && IsImage(f)
  {
    if |files| == 0 then []
    else (if IsImage(files[0]) then [files[0]] else []) + ImageFiles(files[1..])
  }

  /** A file is an image exactly when the text from its last dot, which
      neither starts nor ends the name, lower-cased, is an image
      extension: the suffix test is case-blind and only the last suffix
      counts. */
  lemma ImageByLastDot(f: FileEntry, i: nat)
    requires LastDot(f.name, i)
    ensures IsImage(f) <==> 0 < i < |f.name| - 1 && Lower(f.name[i..]) in IMAGE_EXTENSIONS
  {
    StemSuffix(f.name);
    assert Lower("") == "";
  }

  /** A name ending in `ext`, a dot and no further dot, has its last dot
      where `ext` starts. */
  lemma LastDotOfExtension(stem: string, ext: string)
    requires |ext| > 0 && ext[0] == '.' && forall j :: 1 <= j < |ext| ==> ext[j] != '.'
    ensures LastDot(stem + ext, |stem|) && (stem + ext)[|stem|..] == ext
  {
    var name := stem + ext;
    forall j | |stem| < j < |name| ensures name[j] != '.' {
      assert name[j] == ext[j - |stem|];
    }
  }

  /** `.PNG` lower-cases to an image extension, `.md` to none. */
  lemma ExtensionCases()
    ensures Lower(".PNG") in IMAGE_EXTENSIONS && Lower(".md") !in IMAGE_EXTENSIONS
  {
    assert Lower(".PNG") == ".png";
    assert Lower(".md") == ".md";
  }

  /** The suffix test is case-blind: `x.PNG` is an image. */
  lemma ImageSuffixCaseBlind(stem: string, data: Option<string>)
    requires |stem| > 0
    ensures IsImage(FileEntry(stem + ".PNG", data))
  {
    ExtensionCases();
    LastDotOfExtension(stem, ".PNG");
    ImageByLastDot(FileEntry(stem + ".PNG", data), |stem|);
  }

  /** Only the last suffix counts: `x.svg.md` is not an image. */
  lemma ImageSuffixLastOnly(stem: string, data: Option<string>)
    ensures !IsImage(FileEntry(stem + ".svg" + ".md", data))
  {
    ExtensionCases();
    LastDotOfExtension(stem + ".svg", ".md");
    ImageByLastDot(FileEntry(stem + ".svg" + ".md", data), |stem| + 4);
  }

  /** A name whose only dot starts it has no suffix: `.png` is not an
      image. */
  lemma ImageSuffixDotfile(ext: string, data: Option<string>)
    requires forall j :: 0 <= j < |ext| ==> ext[j] != '.'
    ensures !IsImage(FileEntry("." + ext, data))
  {
    LastDotOfExtension("", "." + ext);
    assert "" + ("." + ext) == "." + ext;
    ImageByLastDot(FileEntry("." + ext, data), 0);
  }

  // ---------------------------------------------------------------------
  // Titles
  // ---------------------------------------------------------------------

  /** Length of the run of ASCII digits that starts `s`. */
  function DigitRun(s: string): (n: nat)
    ensures n <= |s|
    ensures forall i :: 0 <= i < n ==> IsDigit(s[i])
    ensures n < |s| ==> !IsDigit(s[n])
  {
    if |s| > 0 && IsDigit(s[0]) then 1 + DigitRun(s[1..]) else 0
  }

  /** `re.sub(r'^\d+-', '', s)`: one leading run of digits and the hyphen
      after it are removed. */
  function StripNumberPrefix(s: string): string
  {
    var n := DigitRun(s);
    if 0 < n < |s| && s[n] == '-' then s[n + 1..] else s
  }

  /** `s` starts with digits followed by a hyphen. */
  predicate HasNumberPrefix(s: string)
  {
    exists k :: 0 < k < |s| && s[k] == '-' && forall i :: 0 <= i < k ==> IsDigit(s[i])
  }

  /** The prefix goes exactly when there is one; what is left is a suffix
      of the name. */
  lemma StripNumberPrefixSpec(s: string)
    ensures var r := StripNumberPrefix(s);
      && |r| <= |s| && r == s[|s| - |r|..]
      && (|r| < |s| <==> HasNumberPrefix(s))
  {
    var n := DigitRun(s);
    if HasNumberPrefix(s) {
      var k :| 0 < k < |s| && s[k] == '-' && forall i :: 0 <= i < k ==> IsDigit(s[i]);
      DigitRunStops(s, k);
    }
  }

  /** Only one prefix goes: `01-02-x` keeps `02-x`. */
  lemma StripsOnePrefix(digits: string, rest: string)
    requires |digits| > 0 && forall i :: 0 <= i < |digits| ==> IsDigit(digits[i])
    ensures StripNumberPrefix(digits + "-" + rest) == rest
  {
    var s := digits + "-" + rest;
    DigitRunStops(s, |digits|);
    assert s[|digits| + 1..] == rest;
  }

  lemma {:induction false} DigitRunStops(s: string, k: nat)
    requires k < |s| && !IsDigit(s[k])
    requires forall i :: 0 <= i < k ==> IsDigit(s[i])
    ensures DigitRun(s) == k
  {
    if k > 0 {
      DigitRunStops(s[1..], k - 1);
    }
  }

  /** `get_section_title`: prefix stripped, hyphens to spaces, title-cased. */
  function SectionTitle(name: string): string
  {
    TitleCase(ReplaceChar(StripNumberPrefix(name), '-', ' '))
  }

  /** The section title position by position: each hyphen of the stripped
      name is a space, and a letter is upper-cased exactly when it starts
      the name or follows a character that is not a letter. */
  lemma SectionTitleAt(name: string)
    ensures |SectionTitle(name)| == |StripNumberPrefix(name)|
    ensures forall i :: 0 <= i < |StripNumberPrefix(name)| ==> SectionTitleChar(name, i)
  {
    var c := StripNumberPrefix(name);
    var d := ReplaceChar(c, '-', ' ');
    TitleCaseAt(d);
    forall i | 0 <= i < |c| ensures SectionTitleChar(name, i) {
      assert d[i] == if c[i] == '-' then ' ' else c[i];
      if i > 0 {
        var j := i - 1;
        assert d[j] == if c[j] == '-' then ' ' else c[j];
      }
    }
  }

  /** Position `i` of the section title, from the stripped name. */
  predicate SectionTitleChar(name: string, i: nat)
    requires i < |StripNumberPrefix(name)| == |SectionTitle(name)|
  {
    var c := StripNumberPrefix(name);
    SectionTitle(name)[i] ==
      if c[i] == '-' then ' '
      else if i == 0 || !IsLetter(c[i - 1]) then UpperChar(c[i])
      else LowerChar(c[i])
  }

  /** Length of the whitespace run that starts `s` (`\s+`, greedy). */
  function SpaceRun(s: string): (n: nat)
    ensures n <= |s|
  {
    if |s| > 0 && IsSpace(s[0]) then 1 + SpaceRun(s[1..]) else 0
  }

  /** The run is whitespace and stops at the first other character. */
  lemma {:induction false} SpaceRunSpec(s: string)
    ensures forall i :: 0 <= i < SpaceRun(s) ==> IsSpace(s[i])
    ensures SpaceRun(s) < |s| ==> !IsSpace(s[SpaceRun(s)])
  {
    if |s| > 0 && IsSpace(s[0]) {
      SpaceRunSpec(s[1..]);
    }
  }

  /** Where `.+` starting at `i` stops and `$` matches: the next newline,
      or the end. */
  function LineEnd(s: string, i: nat): (e: nat)
    requires i <= |s|
    ensures i <= e <= |s|
    decreases |s| - i
  {
    if i == |s| || s[i] == '\n' then i else LineEnd(s, i + 1)
  }

  /** The line runs up to, not including, the next newline. */
  lemma {:induction false} LineEndSpec(s: string, i: nat)
    requires i <= |s|
    ensures forall j :: i <= j < LineEnd(s, i) ==> s[j] != '\n'
    ensures LineEnd(s, i) < |s| ==> s[LineEnd(s, i)] == '\n'
    decreases |s| - i
  {
    if i < |s| && s[i] != '\n' {
      LineEndSpec(s, i + 1);
    }
  }

  /** The last position in `[lo, hi)` that is not a newline: where `.+` can
      start once `\s+` gives characters back. */
  function LastNonNewline(s: string, lo: nat, hi: nat): (r: Option<nat>)
    requires hi <= |s|
    ensures r.Some? ==> lo <= r.value < hi
    decreases hi
  {
    if hi <= lo then None
    else if s[hi - 1] != '\n' then Some(hi - 1)
    else LastNonNewline(s, lo, hi - 1)
  }

  /** The group of `#\s+(.+)$` matched at the start of `s`, if it matches
      there. */
  function HeadingMatch(s: string): Option<string>
  {
    if |s| > 0 && s[0] == '#' then
      var q := 1 + SpaceRun(s[1..]);
      if q == 1 then None
      else if q < |s| then Some(s[q..LineEnd(s, q)])
      else match LastNonNewline(s, 2, q)
        case None => None
        case Some(k) => Some(s[k..LineEnd(s, k)])
    else None
  }

  lemma {:induction false} LastNonNewlineSpec(s: string, lo: nat, hi: nat)
    requires hi <= |s|
    ensures LastNonNewline(s, lo, hi).Some? ==> s[LastNonNewline(s, lo, hi).value] != '\n'
    ensures LastNonNewline(s, lo, hi).None? ==> forall j :: lo <= j < hi ==> s[j] == '\n'
    decreases hi
  {
    if lo < hi && s[hi - 1] == '\n' {
      LastNonNewlineSpec(s, lo, hi - 1);
    }
  }

  /** A match starts with `#` and whitespace, and `(.+)$` captures a
      non-empty piece of one line that runs to the end of that line
      (`LineEnd`). */
  lemma HeadingMatchShape(s: string)
    ensures HeadingMatch(s).Some? ==>
      var g := HeadingMatch(s).value;
      && |s| >= 2 && s[0] == '#' && IsSpace(s[1])
      && |g| > 0 && (forall j :: 0 <= j < |g| ==> g[j] != '\n')
      && exists k :: 2 <= k <= |s| && g == s[k..LineEnd(s, k)]
  {
    if HeadingMatch(s).Some? {
      var g := HeadingMatch(s).value;
      var k := HeadingGroup(s);
      var e := LineEnd(s, k);
      LineEndSpec(s, k);
      assert s[k] != '\n' && k < e;
      forall j | 0 <= j < |g| ensures g[j] != '\n' {
        assert g[j] == s[k + j];
      }
    }
  }

  /** Where the group of a heading match starts: after `#` and at least
      one whitespace character, on a character that is not a newline. */
  lemma HeadingGroup(s: string) returns (k: nat)
    requires HeadingMatch(s).Some?
    ensures |s| >= 2 && s[0] == '#' && IsSpace(s[1])
    ensures 2 <= k < |s| && s[k] != '\n' && HeadingMatch(s).value == s[k..LineEnd(s, k)]
  {
    var q := 1 + SpaceRun(s[1..]);
    SpaceRunSpec(s[1..]);
    assert s[1..][0] == s[1];
    if q < |s| {
      assert s[1..][q - 1] == s[q];
      k := q;
    } else {
      LastNonNewlineSpec(s, 2, q);
      k := LastNonNewline(s, 2, q).value;
    }
  }

  /** `re.search(r'^#\s+(.+)$', s, re.MULTILINE)`: the first line start
      where the pattern matches. */
  function FirstHeading(s: string): Option<string>
  {
    match HeadingMatch(s)
    case Some(g) => Some(g)
    case None =>
      var e := LineEnd(s, 0);
      if e == |s| then None else FirstHeading(s[e + 1..])
  }

  /** `extract_title`: the stripped heading; without one, the section-title
      transform of the stem; when the file cannot be read, the raw stem. */
  function ExtractTitle(name: string, data: Option<string>): string
  {
    match data
    case None => Stem(name)
    case Some(text) =>
      match FirstHeading(text)
      case Some(g) => Strip(g)
      case None => SectionTitle(Stem(name))
  }

  /** A first line `# t` gives the title `t`, stripped. */
  lemma TitleFromFirstLine(name: string, t: string, rest: string)
    requires |t| > 0 && !IsSpace(t[0])
    requires forall j :: 0 <= j < |t| ==> t[j] != '\n'
    ensures ExtractTitle(name, Some("# " + t + "\n" + rest)) == Strip(t)
  {
    var s := "# " + t + "\n" + rest;
    SpaceRunOne(s[1..]);
    assert LineEnd(s, 2) == 2 + |t| by {
      assert s[2 + |t|] == '\n';
      LineEndAt(s, 2, 2 + |t|);
    }
    assert s[2..2 + |t|] == t;
  }

  lemma SpaceRunOne(s: string)
    requires |s| >= 2 && IsSpace(s[0]) && !IsSpace(s[1])
    ensures SpaceRun(s) == 1
  {
    assert s[1..][0] == s[1];
  }

  lemma LineEndAt(s: string, i: nat, e: nat)
    requires i <= e < |s| && s[e] == '\n'
    requires forall j :: i <= j < e ==> s[j] != '\n'
    ensures LineEnd(s, i) == e
    decreases e - i
  {
    if i < e {
      LineEndAt(s, i + 1, e);
    }
  }

  /** A line that is not `#` followed by whitespace never matches, so `##`
      headings and ordinary lines are skipped. */
  lemma SkipLine(line: string, rest: string)
    requires forall j :: 0 <= j < |line| ==> line[j] != '\n'
    requires |line| == 0 || line[0] != '#' || (|line| >= 2 && !IsSpace(line[1]))
    ensures FirstHeading(line + "\n" + rest) == FirstHeading(rest)
  {
    var s := line + "\n" + rest;
    if |line| >= 2 && line[0] == '#' {
      assert s[1..][0] == line[1];
    }
    assert HeadingMatch(s) == None;
    LineEndAt(s, 0, |line|);
    assert s[|line| + 1..] == rest;
  }

  /** `\s+` runs across a newline: a bare `#` line takes its title from the
      next line. */
  lemma HashThenNewline(t: string)
    requires |t| > 0 && !IsSpace(t[0])
    requires forall j :: 0 <= j < |t| ==> t[j] != '\n'
    ensures FirstHeading("#\n" + t) == Some(t)
  {
    var s := "#\n" + t;
    assert SpaceRun(s[1..]) == 1 by {
      assert s[1..][0] == '\n' && s[1..][1] == t[0];
      SpaceRunOne(s[1..]);
    }
    assert LineEnd(s, 2) == |s| by {
      forall j | 2 <= j < |s| ensures s[j] != '\n' {
        assert s[j] == t[j - 2];
      }
      LineEndToEnd(s, 2);
    }
    HeadingAt(s, 2);
    assert s[2..|s|] == t;
  }

  /** Where `\s+` stops short of the end, `(.+)$` takes the rest of that
      line. */
  lemma HeadingAt(s: string, q: nat)
    requires |s| > 0 && s[0] == '#' && 1 < q < |s| && 1 + SpaceRun(s[1..]) == q
    ensures HeadingMatch(s) == Some(s[q..LineEnd(s, q)])
    ensures FirstHeading(s) == HeadingMatch(s)
  {
  }

  lemma LineEndToEnd(s: string, i: nat)
    requires i <= |s|
    requires forall j :: i <= j < |s| ==> s[j] != '\n'
    ensures LineEnd(s, i) == |s|
    decreases |s| - i
  {
    if i < |s| {
      LineEndToEnd(s, i + 1);
    }
  }

  /** When `\s+` reaches the end of the text it gives back a character, so
      a heading of blanks still matches and yields an empty title. */
  lemma BlankHeading(name: string)
    ensures ExtractTitle(name, Some("#  ")) == ""
  {
    var s := "#  ";
    assert s[1..] == "  ";
    assert SpaceRun(s[1..]) == 2;
    assert LastNonNewline(s, 2, 3) == Some(2);
    assert LineEnd(s, 2) == 3;
    assert s[2..3] == " ";
    assert StripLeft(" ") == "";
  }

  /** Text without `#` has no heading: the title falls back to the
      section-title transform of the stem. */
  lemma {:induction false} NoHashNoHeading(text: string)
    requires forall j :: 0 <= j < |text| ==> text[j] != '#'
    ensures FirstHeading(text) == None
    decreases |text|
  {
    assert HeadingMatch(text) == None;
    var e := LineEnd(text, 0);
    if e < |text| {
      NoHashNoHeading(text[e + 1..]);
    }
  }

  lemma TitleFallback(name: string, text: string)
    requires forall j :: 0 <= j < |text| ==> text[j] != '#'
    ensures ExtractTitle(name, Some(text)) == SectionTitle(Stem(name))
  {
    NoHashNoHeading(text);
  }

  // ---------------------------------------------------------------------
  // Table of contents
  // ---------------------------------------------------------------------

  const TEMP_DIR := "output/temp"
  const TOC_PATH := TEMP_DIR + "/generated_toc.md"
  const TOC_HEADING := "# Table of Contents\n"

  datatype OutFile = OutFile(path: string, text: string)

  function SectionHeading(s: Section): string
  {
    "\n## " + SectionTitle(s.name) + "\n"
  }

  /** The TOC entry of a chapter: its title, linked relative to the
      temporary directory. */
  function ChapterLine(ref: ChapterRef): string
  {
    "- [" + ExtractTitle(ref.1.name, ref.1.data) + "](" + ref.0 + "/" + ref.1.name + ")"
  }

  /** A chapter file with the name of the section directory it is in. */
  type ChapterRef = (string, FileEntry)

  /** A section's chapters paired with the section's name. */
  function SectionRefs(section: string, chapters: seq<FileEntry>): (r: seq<ChapterRef>)
    ensures |r| == |chapters|
    ensures forall i :: 0 <= i < |chapters| ==> r[i] == (section, chapters[i])
  {
    if |chapters| == 0 then []
    else SectionRefs(section, chapters[..|chapters| - 1]) + [(section, chapters[|chapters| - 1])]
  }

  /** Each chapter of each section, in the order both the TOC and the build
      command list them. */
  function ChapterRefs(sections: seq<Section>): seq<ChapterRef>
  {
    if |sections| == 0 then []
    else
      var s := sections[|sections| - 1];
      ChapterRefs(sections[..|sections| - 1]) + SectionRefs(s.name, ChapterFiles(s))
  }

  /** The TOC entries of a list of chapters. */
  function RefLines(refs: seq<ChapterRef>): seq<string>
  {
    MapSeq(refs, ChapterLine)
  }

  function SectionLines(s: Section): seq<string>
  {
    [SectionHeading(s)] + RefLines(SectionRefs(s.name, ChapterFiles(s)))
  }

  /** `toc_content` after the given sections. */
  function TocLines(sections: seq<Section>): seq<string>
  {
    if |sections| == 0 then [TOC_HEADING]
    else TocLines(sections[..|sections| - 1]) + SectionLines(sections[|sections| - 1])
  }

  function Toc(content: seq<Entry>): string
  {
    Join(TocLines(SectionDirs(content)), "\n")
  }

  /** `generate_toc`. */
  method GenerateToc(content: seq<Entry>) returns (toc: OutFile)
    ensures toc == OutFile(TOC_PATH, Toc(content))
  {
    var sections := SectionDirs(content);
    var lines := [TOC_HEADING];
    for i := 0 to |sections|
      invariant lines == TocLines(sections[..i])
    {
      TocLinesNext(sections, i);
      var s := sections[i];
      lines := AppendChapterLines(lines + [SectionHeading(s)], s.name, ChapterFiles(s));
    }
    assert sections[..|sections|] == sections;
    toc := OutFile(TOC_PATH, Join(lines, "\n"));
  }

  lemma TocLinesNext(sections: seq<Section>, i: nat)
    requires i < |sections|
    ensures var s := sections[i];
      TocLines(sections[..i + 1]) == TocLines(sections[..i]) + [SectionHeading(s)] + RefLines(SectionRefs(s.name, ChapterFiles(s)))
  {
    assert sections[..i + 1][..i] == sections[..i];
  }


  /** The inner loop of `generate_toc`: one entry per chapter file. */
  method AppendChapterLines(lines: seq<string>, section: string, chapters: seq<FileEntry>) returns (out: seq<string>)
    ensures out == lines + RefLines(SectionRefs(section, chapters))
  {
    out := lines;
    for j := 0 to |chapters|
      invariant out == lines + RefLines(SectionRefs(section, chapters[..j]))
    {
      var title := ExtractTitle(chapters[j].name, chapters[j].data);
      var line := "- [" + title + "](" + section + "/" + chapters[j].name + ")";
      assert RefLines(SectionRefs(section, chapters[..j + 1])) == RefLines(SectionRefs(section, chapters[..j])) + [line] by {
        assert chapters[..j + 1][..j] == chapters[..j];
        MapSeqSnoc(SectionRefs(section, chapters[..j]), (section, chapters[j]), ChapterLine);
      }
      out := out + [line];
    }
    assert chapters[..|chapters|] == chapters;
  }

  predicate IsLink(line: string) { |line| > 0 && line[0] == '-' }

  /** The link lines of a list of lines. */
  function Links(lines: seq<string>): seq<string>
  {
    FilterSeq(lines, IsLink)
  }

  lemma {:induction false} LinksOfRefLines(refs: seq<ChapterRef>)
    ensures Links(RefLines(refs)) == RefLines(refs)
  {
    if |refs| > 0 {
      var init := refs[..|refs| - 1];
      LinksOfRefLines(init);
      var last := ChapterLine(refs[|refs| - 1]);
      FilterSeqAppend(RefLines(init), [last], IsLink);
      assert Links([last]) == [last];
    }
  }

  /** The chapter links of the TOC are, in order, the chapters of
      `ChapterRefs`: one link per chapter file, section by section. */
  lemma {:induction false} TocLinks(sections: seq<Section>)
    ensures Links(TocLines(sections)) == RefLines(ChapterRefs(sections))
  {
    if |sections| > 0 {
      var init, s := sections[..|sections| - 1], sections[|sections| - 1];
      calc {
        Links(TocLines(sections));
        Links(TocLines(init) + SectionLines(s));
        { FilterSeqAppend(TocLines(init), SectionLines(s), IsLink); }
        Links(TocLines(init)) + Links(SectionLines(s));
        { TocLinks(init); SectionLinks(s); }
        RefLines(ChapterRefs(init)) + RefLines(SectionRefs(s.name, ChapterFiles(s)));
        { MapSeqAppend(ChapterRefs(init), SectionRefs(s.name, ChapterFiles(s)), ChapterLine); }
        RefLines(ChapterRefs(sections));
      }
    } else {
      assert Links([TOC_HEADING]) == [];
    }
  }

  /** The links of one section are its chapter entries. */
  lemma SectionLinks(s: Section)
    ensures Links(SectionLines(s)) == RefLines(SectionRefs(s.name, ChapterFiles(s)))
  {
    var refs := SectionRefs(s.name, ChapterFiles(s));
    FilterSeqAppend([SectionHeading(s)], RefLines(refs), IsLink);
    LinksOfRefLines(refs);
    assert Links([SectionHeading(s)]) == [];
  }

  // ---------------------------------------------------------------------
  // The temporary directory
  // ---------------------------------------------------------------------

  datatype BuildError = Unreadable(path: string)

  /** A file written under the temporary directory, with what was read. */
  datatype Copy = Copy(path: string, data: string)

  /** What `prepare_temp_directory` leaves: the copies it wrote and the
      chapter paths it returns. */
  datatype Prepared = Prepared(copies: seq<Copy>, tempFiles: seq<string>)

  function SourcePath(section: string, name: string): string { "content/" + section + "/" + name }
  function TempPath(section: string, name: string): string { TEMP_DIR + "/" + section + "/" + name }

  function ChapterTempPath(ref: ChapterRef): string { TempPath(ref.0, ref.1.name) }

  /** The temporary paths of a list of chapters. */
  function TempPaths(refs: seq<ChapterRef>): seq<string>
  {
    MapSeq(refs, ChapterTempPath)
  }

  /** Copying files of a section one after the other: the first unreadable
      one raises. */
  function CopyFiles(section: string, files: seq<FileEntry>): Result<seq<Copy>, BuildError>
  {
    if |files| == 0 then Ok([])
    else
      var f := files[|files| - 1];
      match CopyFiles(section, files[..|files| - 1])
      case Err(e) => Err(e)
      case Ok(cs) =>
        if f.data.None? then Err(Unreadable(SourcePath(section, f.name)))
        else Ok(cs + [Copy(TempPath(section, f.name), f.data.value)])
  }

  lemma {:induction false} CopyFilesSticks(section: string, files: seq<FileEntry>, k: nat)
    requires k <= |files| && CopyFiles(section, files[..k]).Err?
    ensures CopyFiles(section, files) == CopyFiles(section, files[..k])
    decreases |files| - k
  {
    if k < |files| {
      assert files[..k + 1][..k] == files[..k];
      CopyFilesSticks(section, files, k + 1);
    } else {
      assert files[..k] == files;
    }
  }

  /** `c` is the copy of one of `files` in the section's temporary
      directory: same name, same data. */
  predicate CopyOf(c: Copy, section: string, files: seq<FileEntry>)
  {
    exists f :: f in files && f.data == Some(c.data) && c.path == TempPath(section, f.name)
  }

  /** Copying fails exactly when one of the files cannot be read; every
      copy holds what its source file held. */
  lemma {:induction false} CopyFilesOutcome(section: string, files: seq<FileEntry>)
    ensures CopyFiles(section, files).Ok? <==> forall f :: f in files ==> f.data.Some?
    ensures CopyFiles(section, files).Ok? ==>
      forall c :: c in CopyFiles(section, files).value ==> CopyOf(c, section, files)
  {
    if |files| > 0 {
      var init, f := files[..|files| - 1], files[|files| - 1];
      CopyFilesOutcome(section, init);
      assert files == init + [f];
    }
  }

  /** One section of `prepare_temp_directory`: its images, then its
      chapters, whose temporary paths are added to those already listed. */
  function PrepareSection(p: Prepared, s: Section): Result<Prepared, BuildError>
  {
    match CopyFiles(s.name, ImageFiles(s.files))
    case Err(e) => Err(e)
    case Ok(images) =>
      match CopyFiles(s.name, ChapterFiles(s))
      case Err(e) => Err(e)
      case Ok(chapters) =>
        Ok(Prepared(p.copies + images + chapters, p.tempFiles + TempPaths(SectionRefs(s.name, ChapterFiles(s)))))
  }

  /** `prepare_temp_directory` over the given sections, in order; the first
      failure stops it. */
  function PrepareSections(sections: seq<Section>): Result<Prepared, BuildError>
  {
    if |sections| == 0 then Ok(Prepared([], []))
    else
      match PrepareSections(sections[..|sections| - 1])
      case Err(e) => Err(e)
      case Ok(p) => PrepareSection(p, sections[|sections| - 1])
  }

  lemma PrepareNext(sections: seq<Section>, i: nat)
    requires i < |sections|
    ensures PrepareSections(sections[..i + 1])
         == if PrepareSections(sections[..i]).Err? then PrepareSections(sections[..i])
            else PrepareSection(PrepareSections(sections[..i]).value, sections[i])
  {
    assert sections[..i + 1][..i] == sections[..i];
  }

  lemma {:induction false} PrepareSticks(sections: seq<Section>, k: nat)
    requires k <= |sections| && PrepareSections(sections[..k]).Err?
    ensures PrepareSections(sections) == PrepareSections(sections[..k])
    decreases |sections| - k
  {
    if k < |sections| {
      assert sections[..k + 1][..k] == sections[..k];
      PrepareSticks(sections, k + 1);
    } else {
      assert sections[..k] == sections;
    }
  }

  function Prepare(content: seq<Entry>): Result<Prepared, BuildError>
  {
    PrepareSections(SectionDirs(content))
  }

  /** `copy_images`: every image file of the section copied, in order. */
  method CopyImages(s: Section) returns (r: Result<seq<Copy>, BuildError>)
    ensures r == CopyFiles(s.name, ImageFiles(s.files))
  {
    r := CopyEach(s.name, ImageFiles(s.files));
  }

  /** The copy loop: each file copied in order; the first unreadable one
      raises. */
  method CopyEach(section: string, files: seq<FileEntry>) returns (r: Result<seq<Copy>, BuildError>)
    ensures r == CopyFiles(section, files)
  {
    var copies: seq<Copy> := [];
    for j := 0 to |files|
      invariant CopyFiles(section, files[..j]) == Ok(copies)
    {
      assert files[..j + 1][..j] == files[..j];
      if files[j].data.None? {
        CopyFilesSticks(section, files, j + 1);
        return Err(Unreadable(SourcePath(section, files[j].name)));
      }
      copies := copies + [Copy(TempPath(section, files[j].name), files[j].data.value)];
    }
    assert files[..|files|] == files;
    return Ok(copies);
  }

  /** `copy_and_adjust_chapter`: what is written is what was read. */
  method CopyAndAdjustChapter(section: string, chapter: FileEntry) returns (r: Result<Copy, BuildError>)
    ensures chapter.data.None? <==> r.Err?
    ensures r.Err? ==> r.error == Unreadable(SourcePath(section, chapter.name))
    ensures r.Ok? ==> r.value.path == TempPath(section, chapter.name) && Some(r.value.data) == chapter.data
  {
    if chapter.data.None? {
      return Err(Unreadable(SourcePath(section, chapter.name)));
    }
    return Ok(Copy(TempPath(section, chapter.name), chapter.data.value));
  }

  /** `prepare_temp_directory`. */
  method PrepareTempDirectory(content: seq<Entry>) returns (r: Result<Prepared, BuildError>)
    ensures r == Prepare(content)
  {
    var sections := SectionDirs(content);
    var copies: seq<Copy> := [];
    var tempFiles: seq<string> := [];
    for i := 0 to |sections|
      invariant PrepareSections(sections[..i]) == Ok(Prepared(copies, tempFiles))
    {
      PrepareNext(sections, i);
      var s := sections[i];
      var images := CopyImages(s);
      if images.Err? {
        PrepareSticks(sections, i + 1);
        return Err(images.error);
      }
      var chapters, paths := CopyChapters(s);
      if chapters.Err? {
        PrepareSticks(sections, i + 1);
        return Err(chapters.error);
      }
      copies := copies + images.value + chapters.value;
      tempFiles := tempFiles + paths;
    }
    assert sections[..|sections|] == sections;
    r := Ok(Prepared(copies, tempFiles));
  }

  /** The chapter loop of `prepare_temp_directory`: each chapter copied in
      order, its temporary path listed. */
  method CopyChapters(s: Section) returns (r: Result<seq<Copy>, BuildError>, paths: seq<string>)
    ensures r == CopyFiles(s.name, ChapterFiles(s))
    ensures r.Ok? ==> paths == TempPaths(SectionRefs(s.name, ChapterFiles(s)))
  {
    var chapters := ChapterFiles(s);
    var copied: seq<Copy> := [];
    paths := [];
    for j := 0 to |chapters|
      invariant CopyFiles(s.name, chapters[..j]) == Ok(copied)
      invariant paths == TempPaths(SectionRefs(s.name, chapters[..j]))
    {
      assert chapters[..j + 1][..j] == chapters[..j];
      var c := CopyAndAdjustChapter(s.name, chapters[j]);
      if c.Err? {
        CopyFilesSticks(s.name, chapters, j + 1);
        return Err(c.error), paths;
      }
      MapSeqSnoc(SectionRefs(s.name, chapters[..j]), (s.name, chapters[j]), ChapterTempPath);
      copied := copied + [c.value];
      paths := paths + [c.value.path];
    }
    assert chapters[..|chapters|] == chapters;
    r := Ok(copied);
  }

  /** Every image and chapter file of the section can be read. */
  predicate SectionReadable(s: Section)
  {
    forall f :: f in s.files && (IsImage(f) || IsMarkdown(f)) ==> f.data.Some?
  }

  /** One section fails exactly when one of its image or chapter files
      cannot be read. */
  lemma SectionOutcome(p: Prepared, s: Section)
    ensures PrepareSection(p, s).Ok? <==> SectionReadable(s)
  {
    CopyFilesOutcome(s.name, ImageFiles(s.files));
    CopyFilesOutcome(s.name, ChapterFiles(s));
    ChapterFilesSorted(s);
  }

  /** Preparing fails exactly when an image or chapter file of some section
      cannot be read. */
  lemma {:induction false} PrepareOutcome(sections: seq<Section>)
    ensures PrepareSections(sections).Ok? <==> forall s :: s in sections ==> SectionReadable(s)
  {
    if |sections| > 0 {
      var init, s := sections[..|sections| - 1], sections[|sections| - 1];
      PrepareOutcome(init);
      ReadableSnoc(sections);
      if PrepareSections(init).Ok? {
        SectionOutcome(PrepareSections(init).value, s);
      }
    }
  }

  /** Every section is readable exactly when the earlier ones and the last
      one are. */
  lemma ReadableSnoc(sections: seq<Section>)
    requires |sections| > 0
    ensures (forall x :: x in sections ==> SectionReadable(x))
      <==> (forall x :: x in sections[..|sections| - 1] ==> SectionReadable(x)) && SectionReadable(sections[|sections| - 1])
  {
    assert sections == sections[..|sections| - 1] + [sections[|sections| - 1]];
  }

  /** A copy of one of some files is a copy of one of any files that
      include them. */
  lemma CopyOfWider(c: Copy, section: string, files: seq<FileEntry>, wider: seq<FileEntry>)
    requires CopyOf(c, section, files)
    requires forall f :: f in files ==> f in wider
    ensures CopyOf(c, section, wider)
  {
  }

  /** One section's copies come from its own files, with their data
      unchanged; its chapter paths are appended in order. */
  lemma SectionCopies(p: Prepared, s: Section)
    requires PrepareSection(p, s).Ok?
    ensures var q := PrepareSection(p, s).value;
      && q.tempFiles == p.tempFiles + TempPaths(SectionRefs(s.name, ChapterFiles(s)))
      && q.copies[..|p.copies|] == p.copies
      && forall c :: c in q.copies[|p.copies|..] ==> CopyOf(c, s.name, s.files)
  {
    var images, chapters := CopyFiles(s.name, ImageFiles(s.files)), CopyFiles(s.name, ChapterFiles(s));
    var q := PrepareSection(p, s).value;
    assert images.Ok? && chapters.Ok? && q.copies == p.copies + (images.value + chapters.value);
    assert q.copies[|p.copies|..] == images.value + chapters.value;
    CopiesOfWider(s.name, ImageFiles(s.files), s.files);
    ChapterFilesSorted(s);
    CopiesOfWider(s.name, ChapterFiles(s), s.files);
  }

  /** The copies of some of a section's files are copies of its files. */
  lemma CopiesOfWider(section: string, files: seq<FileEntry>, wider: seq<FileEntry>)
    requires CopyFiles(section, files).Ok?
    requires forall f :: f in files ==> f in wider
    ensures forall c :: c in CopyFiles(section, files).value ==> CopyOf(c, section, wider)
  {
    CopyFilesOutcome(section, files);
    forall c | c in CopyFiles(section, files).value ensures CopyOf(c, section, wider) {
      CopyOfWider(c, section, files, wider);
    }
  }

  /** Every copy holds exactly what its source file held, under the same
      name in the same section of the temporary directory. */
  lemma {:induction false} PreparedCopies(sections: seq<Section>)
    requires PrepareSections(sections).Ok?
    ensures forall c :: c in PrepareSections(sections).value.copies ==>
      exists s :: s in sections && CopyOf(c, s.name, s.files)
  {
    if |sections| > 0 {
      var init, s := sections[..|sections| - 1], sections[|sections| - 1];
      var p := PrepareSections(init).value;
      PreparedCopies(init);
      SectionCopies(p, s);
      var q := PrepareSection(p, s).value;
      assert PrepareSections(sections).value == q;
      forall c | c in q.copies ensures exists s' :: s' in sections && CopyOf(c, s'.name, s'.files) {
        var k :| 0 <= k < |q.copies| && q.copies[k] == c;
        if k < |p.copies| {
          assert c in p.copies by { assert q.copies[..|p.copies|][k] == c; }
          var s' :| s' in init && CopyOf(c, s'.name, s'.files);
          assert s' in sections;
        } else {
          assert c in q.copies[|p.copies|..] by { assert q.copies[|p.copies|..][k - |p.copies|] == c; }
          assert s in sections;
        }
      }
    }
  }

  /** The chapter paths returned are those of `ChapterRefs`, in order. */
  lemma {:induction false} PreparedTempFiles(sections: seq<Section>)
    requires PrepareSections(sections).Ok?
    ensures PrepareSections(sections).value.tempFiles == TempPaths(ChapterRefs(sections))
  {
    if |sections| > 0 {
      var init, s := sections[..|sections| - 1], sections[|sections| - 1];
      PreparedTempFiles(init);
      SectionCopies(PrepareSections(init).value, s);
      MapSeqAppend(ChapterRefs(init), SectionRefs(s.name, ChapterFiles(s)), ChapterTempPath);
    }
  }

  // ---------------------------------------------------------------------
  // The pandoc command
  // ---------------------------------------------------------------------

  const BOOK_PATH := "output/book.epub"
  const CSS_PATH := "style.css"

  /** `metadata.yml` when it exists, `metadata.yaml` otherwise. */
  function MetadataFile(ymlExists: bool): string
  {
    if ymlExists then "metadata.yml" else "metadata.yaml"
  }

  /** `str(Path(p).parent)` for a relative path. */
  function Parent(path: string): string
  {
    match LastIndexOf(path, '/')
    case None => "."
    case Some(i) => if i == 0 then "/" else path[..i]
  }

  function Parents(paths: seq<string>): (r: seq<string>)
    ensures |r| == |paths|
    ensures forall i :: 0 <= i < |paths| ==> r[i] == Parent(paths[i])
  {
    if |paths| == 0 then [] else [Parent(paths[0])] + Parents(paths[1..])
  }

  /** The pandoc command line `build_epub` assembles. */
  function Command(contentFiles: seq<string>, ymlExists: bool, cssExists: bool): seq<string>
  {
    ["pandoc", "-f", "markdown+smart", "-t", "epub3", "--toc", "--toc-depth=3",
     "--resource-path", Join(Parents(contentFiles), ":"),
     "-o", BOOK_PATH, MetadataFile(ymlExists), TOC_PATH]
    + contentFiles
    + (if cssExists then ["--css", CSS_PATH] else [])
  }

  /** The command names the metadata and the TOC right before the chapters,
      the chapters in the given order, and the stylesheet last when there is
      one. */
  lemma CommandLayout(contentFiles: seq<string>, ymlExists: bool, cssExists: bool)
    ensures var cmd := Command(contentFiles, ymlExists, cssExists);
      && |cmd| == 13 + |contentFiles| + (if cssExists then 2 else 0)
      && cmd[11] == MetadataFile(ymlExists) && cmd[12] == TOC_PATH
      && cmd[13..13 + |contentFiles|] == contentFiles
      && (cssExists ==> cmd[|cmd| - 2..] == ["--css", CSS_PATH])
      && (!cssExists ==> |cmd| == 13 + |contentFiles|)
  {
    var cmd := Command(contentFiles, ymlExists, cssExists);
    assert cmd[13..13 + |contentFiles|] == contentFiles;
  }

  /** A chapter's resource directory is its section under the temporary
      directory. */
  lemma TempPathParent(section: string, name: string)
    requires forall j :: 0 <= j < |name| ==> name[j] != '/'
    ensures Parent(TempPath(section, name)) == TEMP_DIR + "/" + section
  {
    var p := TempPath(section, name);
    var i := |TEMP_DIR + "/" + section|;
    assert p[i] == '/';
    assert forall j :: i < j < |p| ==> p[j] == name[j - i - 1];
    assert p[..i] == TEMP_DIR + "/" + section;
  }

  /** The command as `build_epub` extends it, step by step. */
  method AssembleCommand(contentFiles: seq<string>, ymlExists: bool, cssExists: bool, tocFile: string)
    returns (cmd: seq<string>)
    requires tocFile == TOC_PATH
    ensures cmd == Command(contentFiles, ymlExists, cssExists)
  {
    cmd := ["pandoc", "-f", "markdown+smart", "-t", "epub3", "--toc", "--toc-depth=3",
            "--resource-path", Join(Parents(contentFiles), ":"),
            "-o", BOOK_PATH, MetadataFile(ymlExists), tocFile];
    var head := cmd;
    for k := 0 to |contentFiles|
      invariant cmd == head + contentFiles[..k]
    {
      assert contentFiles[..k + 1] == contentFiles[..k] + [contentFiles[k]];
      cmd := cmd + [contentFiles[k]];
    }
    assert contentFiles[..|contentFiles|] == contentFiles;
    if cssExists {
      cmd := cmd + ["--css", CSS_PATH];
    }
  }

  /** What a run of `build_epub` leaves: the command it ran (if it got
      that far), the TOC it wrote, whether it reports success, and whether
      the temporary directory is still there afterwards. */
  datatype BuildRun = BuildRun(command: Option<seq<string>>, toc: Option<OutFile>, built: bool, tempKept: bool)

  /** How the pandoc subprocess ends: it exits with status 0, it exits
      with another status (`CalledProcessError`), or it cannot be started
      at all (for instance `FileNotFoundError` when pandoc is not
      installed). */
  datatype PandocRun = Succeeded | ExitFailure | LaunchFailure

  /** `build_epub`; how pandoc ends is the `pandoc` input. A non-zero exit
      is caught on its own and leaves the temporary directory behind;
      success and every other error remove it. */
  method BuildEpub(content: seq<Entry>, ymlExists: bool, cssExists: bool, pandoc: PandocRun) returns (run: BuildRun)
    ensures Prepare(content).Err? ==> run == BuildRun(None, None, false, false)
    ensures Prepare(content).Ok? ==>
      run == BuildRun(Some(Command(Prepare(content).value.tempFiles, ymlExists, cssExists)),
                      Some(OutFile(TOC_PATH, Toc(content))), pandoc == Succeeded, pandoc == ExitFailure)
    ensures run.built <==> Prepare(content).Ok? && pandoc == Succeeded
    ensures run.tempKept <==> Prepare(content).Ok? && pandoc == ExitFailure
  {
    var prepared := PrepareTempDirectory(content);
    if prepared.Err? {
      return BuildRun(None, None, false, false);
    }
    var toc := GenerateToc(content);
    var cmd := AssembleCommand(prepared.value.tempFiles, ymlExists, cssExists, toc.path);
    match pandoc
    case Succeeded =>
      run := BuildRun(Some(cmd), Some(toc), true, false);
    case ExitFailure =>
      run := BuildRun(Some(cmd), Some(toc), false, true);
    case LaunchFailure =>
      run := BuildRun(Some(cmd), Some(toc), false, false);
  }

  /** The TOC and the build command agree: the i-th link of the TOC and the
      i-th chapter handed to pandoc are the same chapter file, and the
      chapters come section by section in sorted order. */
  lemma TocMatchesCommand(content: seq<Entry>)
    requires Prepare(content).Ok?
    ensures var refs := ChapterRefs(SectionDirs(content));
      var links, files := Links(TocLines(SectionDirs(content))), Prepare(content).value.tempFiles;
      && |links| == |files| == |refs|
      && forall i :: 0 <= i < |refs| ==>
           && links[i] == "- [" + ExtractTitle(refs[i].1.name, refs[i].1.data) + "](" + refs[i].0 + "/" + refs[i].1.name + ")"
           && files[i] == TEMP_DIR + "/" + refs[i].0 + "/" + refs[i].1.name
  {
    TocLinks(SectionDirs(content));
    MapSeqAt(ChapterRefs(SectionDirs(content)), ChapterLine);
    PreparedTempFiles(SectionDirs(content));
    MapSeqAt(ChapterRefs(SectionDirs(content)), ChapterTempPath);
  }
}

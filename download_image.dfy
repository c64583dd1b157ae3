/**
 * The image-reference rewriter, hello-interview/download-image.py. Every
 * Markdown image `![...](url)` of a document is visited in order; an
 * http(s) url gets a local name `i-{doc}-d{index}{ext}` in the document's
 * directory, is fetched there unless a file of that name exists, and, when
 * the file is there, every occurrence of the url in the text is replaced by
 * the local name. The text is written back once at the end.
 *
 * The file system and the network are parameters: the text of the file (or
 * `None` when it does not exist), the set of paths that exist, and whether
 * the download attempted for image reference number `i` succeeds.
 */
module DownloadImage {
  import opened Strings

  // ---------------------------------------------------------------------
  // re.findall(r'!\[.*?\]\((.*?)\)', content)
  // ---------------------------------------------------------------------

  /** No newline from `i` up to `k`. */
  predicate SameLine(s: string, i: nat, k: nat)
    requires k <= |s|
  {
    forall j :: i <= j < k ==> s[j] != '\n'
  }

  /** Where `pat` first starts at or after `i` on the same line: `.` in the
      pattern does not match a newline, so a newline before it (or the end
      of the text) means there is none. */
  function LineFind(s: string, i: nat, pat: string): (r: Option<nat>)
    requires |pat| > 0
    ensures r.Some? ==> i <= r.value && r.value + |pat| <= |s| && pat <= s[r.value..]
    ensures r.Some? ==> forall k :: i <= k < r.value ==> s[k] != '\n' && !(pat <= s[k..])
    ensures r.None? ==> forall k :: i <= k < |s| && SameLine(s, i, k) ==> !(pat <= s[k..])
    decreases |s| - i
  {
    if i >= |s| then None
    else if pat <= s[i..] then Some(i)
    else if s[i] == '\n' then None
    else
      var r := LineFind(s, i + 1, pat);
      assert r.None? ==> forall k :: i < k < |s| && SameLine(s, i, k) ==> SameLine(s, i + 1, k);
      r
  }

  /** The pattern matches at `p` with its `](` at `q` and its `)` at `e`:
      `![`, the bracket text, `](`, the url, `)`, all on one line. */
  predicate RefAt(s: string, p: nat, q: nat, e: nat)
  {
    && p + 2 <= q && q + 2 <= e < |s|
    && s[p] == '!' && s[p + 1] == '[' && s[q] == ']' && s[q + 1] == '(' && s[e] == ')'
    && SameLine(s, p + 2, e)
  }

  /** A match at `p` means `](` on the line after `![`, at or after the
      first one. */
  lemma RefHasBracket(s: string, p: nat, q: nat, e: nat)
    requires RefAt(s, p, q, e)
    ensures LineFind(s, p + 2, "](").Some? && LineFind(s, p + 2, "](").value <= q
  {
    assert "](" <= s[q..];
    assert SameLine(s, p + 2, q);
  }

  /** ... and a `)` on the line after any `](` up to the match's own. */
  lemma RefHasParen(s: string, p: nat, q: nat, e: nat, q0: nat)
    requires RefAt(s, p, q, e) && p + 2 <= q0 <= q
    ensures LineFind(s, q0 + 2, ")").Some?
  {
    assert ")" <= s[e..];
    assert SameLine(s, q0 + 2, e);
  }

  /** The match of the pattern that starts at `p`, as the bounds of the
      captured url. The lazy `.*?` in the brackets stops at the first `](`
      of the line, and the lazy url at the first `)` after it; when no `)`
      follows that `](` on the line, none follows a later `](` either, so
      the backtracking regex finds no match at `p` either. */
  function MatchAt(s: string, p: nat): (r: Option<(nat, nat)>)
    ensures r.Some? ==> p + 4 <= r.value.0 <= r.value.1 < |s| && s[r.value.1] == ')'
    ensures r.Some? ==> forall k :: r.value.0 <= k < r.value.1 ==> s[k] != ')' && s[k] != '\n'
  {
    if p + 1 < |s| && s[p] == '!' && s[p + 1] == '[' then
      match LineFind(s, p + 2, "](")
      case None => None
      case Some(q) =>
        match LineFind(s, q + 2, ")")
        case None => None
        case Some(e) =>
          assert forall k :: q + 2 <= k < e ==> s[k] != ')' by {
            forall k | q + 2 <= k < e ensures s[k] != ')' {
              assert !(")" <= s[k..]);
            }
          }
          Some((q + 2, e))
    else None
  }

  /** `MatchAt` is the regex's match at `p`: there is one exactly when
      `![`, `](` and `)` follow on one line, and it takes the first `](`
      after `![` and the first `)` after that. */
  lemma MatchAtSpec(s: string, p: nat)
    ensures var r := MatchAt(s, p);
      && (r.None? <==> forall q, e :: !RefAt(s, p, q, e))
      && (r.Some? ==>
            && RefAt(s, p, r.value.0 - 2, r.value.1)
            && s[r.value.0 - 2..r.value.0] == "]("
            && (forall q :: p + 2 <= q < r.value.0 - 2 ==> !("](" <= s[q..])))
  {
    if MatchAt(s, p).Some? {
      var m := MatchAt(s, p).value;
      MatchAtFound(s, p, m.0 - 2, m.1);
    } else if p + 1 < |s| && s[p] == '!' && s[p + 1] == '[' {
      match LineFind(s, p + 2, "](")
      case None =>
        forall q, e | RefAt(s, p, q, e) ensures LineFind(s, p + 2, "](").Some? {
          RefHasBracket(s, p, q, e);
        }
      case Some(q) =>
        forall q', e | RefAt(s, p, q', e) ensures LineFind(s, q + 2, ")").Some? {
          RefHasBracket(s, p, q', e);
          RefHasParen(s, p, q', e, q);
        }
    }
  }

  /** A match at `p` capturing from `q + 2` to `e` has its `](` at `q`. */
  lemma MatchAtFound(s: string, p: nat, q: nat, e: nat)
    requires MatchAt(s, p) == Some((q + 2, e))
    ensures RefAt(s, p, q, e) && s[q..q + 2] == "]("
    ensures forall q' :: p + 2 <= q' < q ==> !("](" <= s[q'..])
  {
    assert p + 1 < |s| && s[p] == '!' && s[p + 1] == '['
        && LineFind(s, p + 2, "](") == Some(q) && LineFind(s, q + 2, ")") == Some(e);
    FoundAt(s, p, q, e);
  }

  /** The two searches of `MatchAt` found `](` at `q` and `)` at `e`. */
  lemma FoundAt(s: string, p: nat, q: nat, e: nat)
    requires p + 1 < |s| && s[p] == '!' && s[p + 1] == '['
    requires LineFind(s, p + 2, "](") == Some(q) && LineFind(s, q + 2, ")") == Some(e)
    ensures RefAt(s, p, q, e) && s[q..q + 2] == "]("
    ensures forall q' :: p + 2 <= q' < q ==> !("](" <= s[q'..])
  {
    assert s[q..q + 2] == "](" && s[q] == ']' && s[q + 1] == '(' by {
      assert "](" <= s[q..];
    }
    assert s[e] == ')' by {
      assert ")" <= s[e..];
    }
    forall k | p + 2 <= k < e ensures s[k] != '\n' {
      if k < q {
        assert s[k] != '\n';
      } else if q + 2 <= k {
        assert s[k] != '\n';
      }
    }
  }

  /** The urls of all matches from `p` on, left to right, each search going
      on after the previous match. A captured url never holds a `)` or a
      newline. */
  function ImageUrls(s: string, p: nat): (r: seq<string>)
    ensures forall j :: 0 <= j < |r| ==> ')' !in r[j] && '\n' !in r[j]
    decreases |s| - p
  {
    if p >= |s| then []
    else
      match MatchAt(s, p)
      case Some(m) =>
        MatchClean(s, m.0, m.1);
        [s[m.0..m.1]] + ImageUrls(s, m.1 + 1)
      case None => ImageUrls(s, p + 1)
  }

  /** `findall` takes the leftmost match from `p` on, then searches on
      after its `)`: when the first position from `p` where the pattern
      matches is `p0`, the first url is the capture there. */
  lemma ImageUrlsLeftmost(s: string, p: nat, p0: nat, q0: nat, e0: nat)
    requires p <= p0 && RefAt(s, p0, q0, e0)
    requires forall p', q, e :: p <= p' < p0 ==> !RefAt(s, p', q, e)
    ensures MatchAt(s, p0).Some?
    ensures var m := MatchAt(s, p0).value;
      ImageUrls(s, p) == [s[m.0..m.1]] + ImageUrls(s, m.1 + 1)
  {
    forall p' | p <= p' < p0 ensures MatchAt(s, p').None? {
      MatchAtSpec(s, p');
    }
    ImageUrlsSkip(s, p, p0);
    MatchFound(s, p0, q0, e0);
    ImageUrlsAtMatch(s, p0);
  }

  lemma MatchFound(s: string, p: nat, q: nat, e: nat)
    requires RefAt(s, p, q, e)
    ensures p < |s| && MatchAt(s, p).Some?
  {
    MatchAtSpec(s, p);
  }

  /** Positions where the pattern does not match add no url. */
  lemma {:induction false} ImageUrlsSkip(s: string, p: nat, p0: nat)
    requires p <= p0 <= |s|
    requires forall p' :: p <= p' < p0 ==> MatchAt(s, p').None?
    ensures ImageUrls(s, p) == ImageUrls(s, p0)
    decreases p0 - p
  {
    if p < p0 {
      assert MatchAt(s, p).None?;
      ImageUrlsSkip(s, p + 1, p0);
      ImageUrlsNoMatch(s, p, ImageUrls(s, p0));
    }
  }

  lemma ImageUrlsNoMatch(s: string, p: nat, later: seq<string>)
    requires p < |s| && MatchAt(s, p).None? && ImageUrls(s, p + 1) == later
    ensures ImageUrls(s, p) == later
  {
  }

  lemma ImageUrlsAtMatch(s: string, p: nat)
    requires p < |s| && MatchAt(s, p).Some?
    ensures var m := MatchAt(s, p).value;
      ImageUrls(s, p) == [s[m.0..m.1]] + ImageUrls(s, m.1 + 1)
  {
  }

  /** From `p` on there is no url exactly when the pattern matches nowhere
      from `p` on. */
  lemma {:induction false} ImageUrlsNone(s: string, p: nat)
    ensures ImageUrls(s, p) == [] <==> forall p', q, e :: p <= p' ==> !RefAt(s, p', q, e)
    decreases |s| - p
  {
    if p < |s| {
      ImageUrlsNone(s, p + 1);
      MatchAtSpec(s, p);
      if MatchAt(s, p).None? {
        assert ImageUrls(s, p) == ImageUrls(s, p + 1);
        if forall p', q, e :: p + 1 <= p' ==> !RefAt(s, p', q, e) {
          forall p', q, e | p <= p' ensures !RefAt(s, p', q, e) {
            if p' == p {
              assert forall q', e' :: !RefAt(s, p, q', e');
            }
          }
        }
      }
    }
  }

  /** A reference `![x](u)` at `p`, on one line, with no `]` in `x` and no
      `)` in `u`, is matched at `p` with `u` as its capture, which by
      `ImageUrlsAtMatch` is then the first url from `p`. */
  lemma OneReference(s: string, p: nat, q: nat, e: nat)
    requires RefAt(s, p, q, e)
    requires ']' !in s[p + 2..q] && ')' !in s[q + 2..e]
    ensures MatchAt(s, p) == Some((q + 2, e))
  {
    var q0, e0 := MatchOf(s, p, q, e);
    SameReference(s, p, q, e, q0, e0);
  }

  /** Where a reference at `p` is matched: the first `](` and the first
      `)` after it. */
  lemma MatchOf(s: string, p: nat, q: nat, e: nat) returns (q0: nat, e0: nat)
    requires RefAt(s, p, q, e)
    ensures MatchAt(s, p) == Some((q0 + 2, e0)) && RefAt(s, p, q0, e0)
    ensures forall k :: p + 2 <= k < q0 ==> !("](" <= s[k..])
    ensures forall k :: q0 + 2 <= k < e0 ==> s[k] != ')'
  {
    MatchFound(s, p, q, e);
    var m := MatchAt(s, p).value;
    q0, e0 := m.0 - 2, m.1;
    MatchAtFound(s, p, q0, e0);
  }

  /** Two references at `p`, the second with the first `](` and the first
      `)` after it, are the same when the first has no `]` in its bracket
      text and no `)` in its url. */
  lemma SameReference(s: string, p: nat, q: nat, e: nat, q0: nat, e0: nat)
    requires RefAt(s, p, q, e) && RefAt(s, p, q0, e0)
    requires ']' !in s[p + 2..q] && ')' !in s[q + 2..e]
    requires forall k :: p + 2 <= k < q0 ==> !("](" <= s[k..])
    requires forall k :: q0 + 2 <= k < e0 ==> s[k] != ')'
    ensures q0 == q && e0 == e
  {
    forall k | p + 2 <= k < q ensures s[k] != ']' {
      assert s[p + 2..q][k - p - 2] == s[k];
    }
    forall k | q + 2 <= k < e ensures s[k] != ')' {
      assert s[q + 2..e][k - q - 2] == s[k];
    }
    assert "](" <= s[q..];
    assert e <= e0;
  }

  /** A slice without `)` or newline at any position holds neither. */
  lemma MatchClean(s: string, b: nat, e: nat)
    requires b <= e <= |s|
    requires forall k :: b <= k < e ==> s[k] != ')' && s[k] != '\n'
    ensures ')' !in s[b..e] && '\n' !in s[b..e]
  {
    var u := s[b..e];
    assert forall k :: 0 <= k < |u| ==> u[k] == s[b + k];
  }

  /** Text without a `!` holds no image reference. */
  lemma {:induction false} PlainTextNoUrls(s: string, p: nat)
    requires forall k :: p <= k < |s| ==> s[k] != '!'
    ensures ImageUrls(s, p) == []
    decreases |s| - p
  {
    if p < |s| {
      PlainTextNoUrls(s, p + 1);
    }
  }

  // ---------------------------------------------------------------------
  // Names and paths
  // ---------------------------------------------------------------------

  predicate IsHttp(url: string)
  {
    "http://" <= url || "https://" <= url
  }

  /** The extension ladder: the first test that holds picks the extension,
      `.jpg` when none does. */
  function Ext(url: string): string
  {
    if Contains(url, ".png") then ".png"
    else if Contains(url, ".jpg") || Contains(url, ".jpeg") then ".jpg"
    else if Contains(url, ".gif") then ".gif"
    else ".jpg"
  }

  /** Each of the three extensions, and exactly when the ladder gives it. */
  lemma ExtLadder(url: string)
    ensures Ext(url) == ".png" || Ext(url) == ".jpg" || Ext(url) == ".gif"
    ensures Ext(url) == ".png" <==> Contains(url, ".png")
    ensures Ext(url) == ".gif" <==>
      !Contains(url, ".png") && !Contains(url, ".jpg") && !Contains(url, ".jpeg") && Contains(url, ".gif")
    ensures Ext(url) == ".jpg" <==>
      !Contains(url, ".png") && (Contains(url, ".jpg") || Contains(url, ".jpeg") || !Contains(url, ".gif"))
  {
  }

  /** `os.path.splitext(name)[0]` of a base name: cut before the last dot,
      unless only dots come before it (a leading-dot name has no
      extension). */
  function SplitExtRoot(name: string): string
  {
    match LastIndexOf(name, '.')
    case None => name
    case Some(d) => if HasNonDot(name[..d]) then name[..d] else name
  }

  predicate HasNonDot(s: string)
  {
    exists k :: 0 <= k < |s| && s[k] != '.'
  }

  /** The root is the whole name, or the name minus an extension that is a
      dot and no further dot, with something other than dots before it. */
  lemma SplitExtParts(name: string)
    ensures var root := SplitExtRoot(name);
      root <= name
      && (root == name || (HasNonDot(root) && name[|root|] == '.' && '.' !in name[|root| + 1..]))
      && forall d :: 0 <= d < |name| && name[d] == '.' && '.' !in name[d + 1..] && HasNonDot(name[..d])
           ==> root == name[..d]
  {
    match LastIndexOf(name, '.')
    case None =>
    case Some(d) =>
      if HasNonDot(name[..d]) {
        var ext := name[d + 1..];
        forall j | 0 <= j < |ext| ensures ext[j] != '.' {
          assert ext[j] == name[d + 1 + j];
        }
      }
      forall d' | 0 <= d' < |name| && name[d'] == '.' && '.' !in name[d' + 1..]
        ensures d' == d
      {
        NotInSuffix(name, d' + 1, '.');
      }
  }

  lemma NotInSuffix(s: string, i: nat, c: char)
    requires i <= |s| && c !in s[i..]
    ensures forall j :: i <= j < |s| ==> s[j] != c
  {
    forall j | i <= j < |s| ensures s[j] != c {
      assert s[j] == s[i..][j - i];
    }
  }

  /** `os.path.splitext(os.path.basename(markdown_file))[0]` */
  function DocName(markdownFile: string): string
  {
    SplitExtRoot(Basename(markdownFile))
  }

  predicate AllSlashes(s: string)
  {
    forall k :: 0 <= k < |s| ==> s[k] == '/'
  }

  function StripTrailingSlashes(s: string): (r: string)
    ensures r <= s && forall k :: |r| <= k < |s| ==> s[k] == '/'
    ensures |r| > 0 ==> r[|r| - 1] != '/'
  {
    if |s| > 0 && s[|s| - 1] == '/' then StripTrailingSlashes(s[..|s| - 1]) else s
  }

  /** `os.path.dirname(p)`: everything up to the last '/', with the slashes
      at its end removed unless it is made of slashes only. */
  function DirName(p: string): string
  {
    match LastIndexOf(p, '/')
    case None => ""
    case Some(i) => if AllSlashes(p[..i + 1]) then p[..i + 1] else StripTrailingSlashes(p[..i + 1])
  }

  /** The directory, then only slashes, then the base name make up the
      path. */
  lemma DirNameBasename(p: string)
    ensures var dir, base := DirName(p), Basename(p);
      && dir <= p && |dir| + |base| <= |p| && p[|p| - |base|..] == base
      && forall k :: |dir| <= k < |p| - |base| ==> p[k] == '/'
  {
  }

  /** `os.path.join(dir, name)` */
  function JoinPath(dir: string, name: string): string
  {
    if |name| > 0 && name[0] == '/' then name
    else if |dir| == 0 || dir[|dir| - 1] == '/' then dir + name
    else dir + "/" + name
  }

  /** `f"i-{doc_name}-d{image_index}{ext}"` */
  function LocalName(doc: string, i: nat, ext: string): string
  {
    "i-" + doc + "-d" + NatToString(i) + ext
  }

  /** Names of different references differ: the index ends at the dot of
      the extension. */
  lemma LocalNameInjective(doc: string, i: nat, j: nat, e1: string, e2: string)
    requires |e1| > 0 && e1[0] == '.' && |e2| > 0 && e2[0] == '.'
    requires LocalName(doc, i, e1) == LocalName(doc, j, e2)
    ensures i == j && e1 == e2
  {
    var pre := "i-" + doc + "-d";
    var a, b := NatToString(i), NatToString(j);
    assert LocalName(doc, i, e1) == pre + (a + e1);
    assert LocalName(doc, j, e2) == pre + (b + e2);
    assert a + e1 == b + e2 by {
      assert (pre + (a + e1))[|pre|..] == a + e1;
      assert (pre + (b + e2))[|pre|..] == b + e2;
    }
    DigitsBeforeDot(a, e1);
    DigitsBeforeDot(b, e2);
    assert e1 == (a + e1)[|a|..] && e2 == (b + e2)[|b|..];
    ParseNatToString(i);
    ParseNatToString(j);
  }

  /** Digits followed by something that starts with a dot: the digits are
      what comes before the first dot. */
  lemma {:induction false} DigitsBeforeDot(digits: string, rest: string)
    requires forall k :: 0 <= k < |digits| ==> IsDigit(digits[k])
    requires |rest| > 0 && rest[0] == '.'
    ensures BeforeFirstDot(digits + rest) == digits
  {
    if |digits| > 0 {
      assert (digits + rest)[1..] == digits[1..] + rest;
      DigitsBeforeDot(digits[1..], rest);
      assert digits == [digits[0]] + digits[1..];
    }
  }

  /** Joining one directory with different relative names gives different
      paths. */
  lemma JoinPathInjective(dir: string, x: string, y: string)
    requires |x| > 0 && x[0] != '/' && |y| > 0 && y[0] != '/'
    requires JoinPath(dir, x) == JoinPath(dir, y)
    ensures x == y
  {
    var base := if |dir| == 0 || dir[|dir| - 1] == '/' then dir else dir + "/";
    assert JoinPath(dir, x) == base + x && JoinPath(dir, y) == base + y;
    assert (base + x)[|base|..] == x && (base + y)[|base|..] == y;
  }

  function LocalFileName(markdownFile: string, i: nat, url: string): string
  {
    LocalName(DocName(markdownFile), i, Ext(url))
  }

  function LocalPath(markdownFile: string, i: nat, url: string): string
  {
    JoinPath(DirName(markdownFile), LocalFileName(markdownFile, i, url))
  }

  /** References at different positions are saved to different paths, so
      no download lands on another's file. */
  lemma LocalPathsDistinct(markdownFile: string, i: nat, j: nat, u: string, v: string)
    requires i != j
    ensures LocalPath(markdownFile, i, u) != LocalPath(markdownFile, j, v)
  {
    ExtLadder(u);
    ExtLadder(v);
    if LocalPath(markdownFile, i, u) == LocalPath(markdownFile, j, v) {
      JoinPathInjective(DirName(markdownFile), LocalFileName(markdownFile, i, u), LocalFileName(markdownFile, j, v));
      LocalNameInjective(DocName(markdownFile), i, j, Ext(u), Ext(v));
    }
  }

  // ---------------------------------------------------------------------
  // urlparse
  // ---------------------------------------------------------------------

  /** Position of the first of `/`, `?`, `#` in `s`, or its length. */
  function NetlocEnd(s: string): (n: nat)
    ensures n <= |s|
    ensures forall k :: 0 <= k < n ==> s[k] != '/' && s[k] != '?' && s[k] != '#'
    ensures n < |s| ==> s[n] == '/' || s[n] == '?' || s[n] == '#'
  {
    if |s| == 0 || s[0] == '/' || s[0] == '?' || s[0] == '#' then 0 else 1 + NetlocEnd(s[1..])
  }

  /** `urlsplit` first drops every tab, carriage return and newline. */
  predicate UrlSafe(c: char)
  {
    c != '\t' && c != '\r' && c != '\n'
  }

  /** The network location of an http(s) url as `urlsplit` reads it: after
      `//`, up to the path, query or fragment. */
  function Netloc(url: string): string
    requires IsHttp(url)
  {
    var rest := FilterSeq(if "http://" <= url then url[7..] else url[8..], UrlSafe);
    rest[..NetlocEnd(rest)]
  }

  /** `urlparse` raises `ValueError` when the network location has one
      square bracket without the other, or has both and
      `_check_bracketed_netloc` refuses it. */
  predicate UrlParseFails(url: string)
    requires IsHttp(url)
  {
    var n := Netloc(url);
    ('[' in n) != (']' in n) || ('[' in n && BracketedNetlocFails(n))
  }

  /** `s.rpartition(c)[2]`: what follows the last `c`, or all of `s`. */
  function AfterLast(s: string, c: char): string
  {
    match LastIndexOf(s, c)
    case None => s
    case Some(i) => s[i + 1..]
  }

  /** `s.partition(c)[0]`: what precedes the first `c`, or all of `s`. */
  function BeforeFirst(s: string, c: char): string
  {
    match IndexOf(s, c)
    case None => s
    case Some(i) => s[..i]
  }

  /** `_check_bracketed_netloc`: the host is read after the last `@`. With
      a `[` there, nothing may come before it, only a `:` may follow the
      `]`, and the host lies between the two; without a `[`, the host is
      what precedes the first `:`. */
  predicate BracketedNetlocFails(n: string)
  {
    var hp := AfterLast(n, '@');
    match IndexOf(hp, '[')
    case None => BracketedHostFails(BeforeFirst(hp, ':'))
    case Some(i) =>
      var b := hp[i + 1..];
      i > 0
      || match IndexOf(b, ']')
         case None => BracketedHostFails(b)
         case Some(j) => (j + 1 < |b| && b[j + 1] != ':') || BracketedHostFails(b[..j])
  }

  /** `_check_bracketed_host`: a host starting with `v` must be an
      IPvFuture literal; any other must be an IPv6 address, and
      `ip_address` trying IPv4 first, an IPv4 address is refused too. */
  predicate BracketedHostFails(h: string)
  {
    if |h| > 0 && h[0] == 'v' then !IsIPvFuture(h) else IsIPv4(h) || !IsIPv6(h)
  }

  predicate IsHexDigit(c: char)
  {
    IsDigit(c) || 'a' <= c <= 'f' || 'A' <= c <= 'F'
  }

  /** Length of the run of hex digits `s` starts with. */
  function HexRun(s: string): (n: nat)
    ensures n <= |s|
    ensures forall k :: 0 <= k < n ==> IsHexDigit(s[k])
    ensures n < |s| ==> !IsHexDigit(s[n])
  {
    if |s| == 0 || !IsHexDigit(s[0]) then 0 else 1 + HexRun(s[1..])
  }

  /** `re.match(r"\Av[a-fA-F0-9]+\..+\Z", h)`: `v`, hex digits, a dot, and
      at least one more character, none of them a newline. The hex run is
      maximal, since a dot is not a hex digit. */
  predicate IsIPvFuture(h: string)
  {
    |h| > 0 && h[0] == 'v'
    && var d := 1 + HexRun(h[1..]);
    d > 1 && d + 1 < |h| && h[d] == '.' && '\n' !in h[d + 1..]
  }

  /** `IPv4Address._parse_octet`: one to three ASCII digits, no leading
      zero, at most 255. */
  predicate IsOctet(t: string)
  {
    0 < |t| <= 3 && (forall k :: 0 <= k < |t| ==> IsDigit(t[k]))
    && (t == "0" || t[0] != '0') && ParseNat(t) <= 255
  }

  /** `IPv4Address(s)` succeeds: four dot-separated octets, no `/`. */
  predicate IsIPv4(s: string)
  {
    '/' !in s && var o := Split(s, '.'); |o| == 4 && forall k :: 0 <= k < 4 ==> IsOctet(o[k])
  }

  /** `IPv6Address(s)` succeeds: no `/`, an optional non-empty `%` scope
      holding no other `%`, and an address of at most 45 characters before
      it. */
  predicate IsIPv6(s: string)
  {
    '/' !in s
    && match IndexOf(s, '%')
       case None => IsIPv6Address(s)
       case Some(i) => i + 1 < |s| && '%' !in s[i + 1..] && IsIPv6Address(s[..i])
  }

  /** `_BaseV6._ip_int_from_string`: at least three `:`-separated parts,
      an IPv4 address in the last part counting as two hextets, then at
      most nine parts in all. */
  predicate IsIPv6Address(a: string)
  {
    0 < |a| <= 45
    && var parts := Split(a, ':');
    |parts| >= 3
    && var last := parts[|parts| - 1];
    ('.' in last ==> IsIPv4(last))
    && var ps := if '.' in last then parts[..|parts| - 1] + ["0", "0"] else parts;
    |ps| <= 9 && HextetsOk(ps)
  }

  /** `_parse_hextet`: one to four hex digits. */
  predicate IsHextet(t: string)
  {
    0 < |t| <= 4 && forall k :: 0 <= k < |t| ==> IsHexDigit(t[k])
  }

  /** The hextet parts: without an inner empty part (a `::`), exactly
      eight hextets; with one, the parts before and after it are hextets
      and stand for at most seven, an empty first or last part being
      allowed only next to the `::`. */
  predicate HextetsOk(ps: seq<string>)
    requires |ps| >= 3
  {
    var n := |ps|;
    if forall i :: 1 <= i < n - 1 ==> ps[i] != "" then
      n == 8 && forall i :: 0 <= i < n ==> IsHextet(ps[i])
    else
      exists k :: 1 <= k < n - 1 && ps[k] == "" && SkipOk(ps, k)
  }

  /** The `::` at part `k` is the only one, and the parts around it are
      well formed. */
  predicate SkipOk(ps: seq<string>, k: nat)
    requires 1 <= k < |ps| - 1
  {
    var n := |ps|;
    var hi := if ps[0] == "" then k - 1 else k;
    var lo := if ps[n - 1] == "" then n - k - 2 else n - k - 1;
    && (forall i :: 1 <= i < n - 1 && i != k ==> ps[i] != "")
    && (ps[0] == "" ==> k == 1)
    && (ps[n - 1] == "" ==> k == n - 2)
    && hi + lo < 8
    && (forall i :: 0 <= i < hi ==> IsHextet(ps[i]))
    && (forall i :: n - lo <= i < n ==> IsHextet(ps[i]))
  }

  /** The network location of `http://` or `https://`, a host and a path:
      the host. */
  lemma HttpNetloc(host: string, tail: string)
    requires forall k :: 0 <= k < |host| ==> UrlSafe(host[k]) && host[k] != '/' && host[k] != '?' && host[k] != '#'
    requires forall k :: 0 <= k < |tail| ==> UrlSafe(tail[k])
    requires |tail| == 0 || tail[0] == '/'
    ensures IsHttp("http://" + host + tail) && Netloc("http://" + host + tail) == host
    ensures IsHttp("https://" + host + tail) && Netloc("https://" + host + tail) == host
  {
    var rest := host + tail;
    HostThenPath(host, tail);
    var a, b := "http://" + host + tail, "https://" + host + tail;
    SchemeThen("http://", host, tail);
    SchemeThen("https://", host, tail);
    HttpsIsNotHttp(host, tail);
    NetlocIs(a, rest, host);
    NetlocIs(b, rest, host);
  }

  /** A scheme prefix then the rest of the url. */
  lemma SchemeThen(scheme: string, host: string, tail: string)
    ensures scheme <= scheme + host + tail && (scheme + host + tail)[|scheme|..] == host + tail
  {
    var u := scheme + host + tail;
    assert u[..|scheme|] == scheme;
    assert u[|scheme|..] == host + tail;
  }

  /** An `https` url does not start with `http://`. */
  lemma HttpsIsNotHttp(host: string, tail: string)
    ensures !("http://" <= "https://" + host + tail)
  {
    assert ("https://" + host + tail)[4] == 's';
  }

  /** The network location from what follows the scheme. */
  lemma NetlocIs(url: string, rest: string, host: string)
    requires IsHttp(url)
    requires if "http://" <= url then url[7..] == rest else url[8..] == rest
    requires FilterSeq(rest, UrlSafe) == rest && rest[..NetlocEnd(rest)] == host
    ensures Netloc(url) == host
  {
  }

  /** A host then a path, neither holding a character `urlsplit` drops:
      nothing is dropped, and the network location is the host. */
  lemma HostThenPath(host: string, tail: string)
    requires forall k :: 0 <= k < |host| ==> UrlSafe(host[k]) && host[k] != '/' && host[k] != '?' && host[k] != '#'
    requires forall k :: 0 <= k < |tail| ==> UrlSafe(tail[k])
    requires |tail| == 0 || tail[0] == '/'
    ensures FilterSeq(host + tail, UrlSafe) == host + tail
    ensures (host + tail)[..NetlocEnd(host + tail)] == host
  {
    var rest := host + tail;
    assert forall k :: 0 <= k < |rest| ==> UrlSafe(rest[k]) by {
      forall k | 0 <= k < |rest| ensures UrlSafe(rest[k]) {
        if k < |host| { assert rest[k] == host[k]; } else { assert rest[k] == tail[k - |host|]; }
      }
    }
    FilterSeqAll(rest, UrlSafe);
    var e := NetlocEnd(rest);
    assert e == |host| by {
      assert forall k :: 0 <= k < |host| ==> rest[k] == host[k];
      assert |tail| > 0 ==> rest[|host|] == tail[0];
    }
    assert rest[..e] == host;
  }

  /** A url whose network location is a bracketed host, possibly with a
      port, is refused exactly when the host is. */
  lemma BracketedUrl(scheme: string, h: string, port: string, tail: string)
    requires scheme == "http://" || scheme == "https://"
    requires forall k :: 0 <= k < |h| ==> UrlSafe(h[k]) && NetlocChar(h[k])
    requires forall k :: 0 <= k < |port| ==> UrlSafe(port[k]) && NetlocChar(port[k])
    requires forall k :: 0 <= k < |tail| ==> UrlSafe(tail[k])
    requires (|port| == 0 || port[0] == ':') && (|tail| == 0 || tail[0] == '/')
    ensures IsHttp(scheme + ("[" + h + "]" + port) + tail)
    ensures UrlParseFails(scheme + ("[" + h + "]" + port) + tail) == BracketedHostFails(h)
  {
    var n := "[" + h + "]" + port;
    assert forall k :: 0 <= k < |n| ==> UrlSafe(n[k]) && n[k] != '/' && n[k] != '?' && n[k] != '#' by {
      forall k | 0 <= k < |n| ensures UrlSafe(n[k]) && n[k] != '/' && n[k] != '?' && n[k] != '#' {
        if 1 <= k < |h| + 1 { assert n[k] == h[k - 1]; }
        else if k > |h| + 1 { assert n[k] == port[k - |h| - 2]; }
      }
    }
    HttpNetloc(n, tail);
    BracketedNetloc(h, port);
    assert '[' in n && ']' in n by {
      assert n[0] == '[' && n[|h| + 1] == ']';
    }
  }

  /** A character of a host or port: no `@`, bracket, `/`, `?` or `#`. */
  predicate NetlocChar(c: char)
  {
    c != '@' && c != '[' && c != ']' && c != '/' && c != '?' && c != '#'
  }

  /** `[h]` or `[h]:port`: the host checked is `h`. */
  lemma BracketedNetloc(h: string, port: string)
    requires forall k :: 0 <= k < |h| ==> NetlocChar(h[k])
    requires forall k :: 0 <= k < |port| ==> NetlocChar(port[k])
    requires |port| == 0 || port[0] == ':'
    ensures BracketedNetlocFails("[" + h + "]" + port) == BracketedHostFails(h)
  {
    var n := "[" + h + "]" + port;
    var b := n[1..];
    assert AfterLast(n, '@') == n by {
      assert forall k :: 0 <= k < |n| ==> n[k] != '@' by {
        forall k | 0 <= k < |n| ensures n[k] != '@' {
          if 1 <= k < |h| + 1 { assert n[k] == h[k - 1]; }
          else if k > |h| + 1 { assert n[k] == port[k - |h| - 2]; }
        }
      }
    }
    assert IndexOf(n, '[') == Some(0) by {
      assert n[0] == '[';
    }
    assert IndexOf(b, ']') == Some(|h|) && b[..|h|] == h && (|h| + 1 < |b| ==> b[|h| + 1] == ':') by {
      assert b == h + "]" + port;
      assert b[|h|] == ']';
      assert forall k :: 0 <= k < |h| ==> b[k] == h[k];
    }
  }

  /** A host with no `:` is neither an IPv6 address nor, unless it starts
      with `v`, accepted: a bracketed name or IPv4 address makes `urlparse`
      raise. */
  lemma HostWithoutColon(h: string)
    requires forall k :: 0 <= k < |h| ==> h[k] != ':'
    requires |h| == 0 || h[0] != 'v'
    ensures !IsIPv6(h) && BracketedHostFails(h)
  {
    match IndexOf(h, '%')
    case None =>
      SplitNoSep(h, ':');
    case Some(i) =>
      SplitNoSep(h[..i], ':');
  }

  /** `::` and one hextet, the loopback `::1` among them, is an accepted
      bracketed host. */
  lemma SkipThenHextet(t: string)
    requires IsHextet(t)
    ensures IsIPv6("::" + t) && !BracketedHostFails("::" + t)
  {
    var h := "::" + t;
    assert forall k :: 0 <= k < |t| ==> t[k] != ':' && t[k] != '%' && t[k] != '.' && t[k] != '/' by {
      forall k | 0 <= k < |t| ensures t[k] != ':' && t[k] != '%' && t[k] != '.' && t[k] != '/' {
        assert IsHexDigit(t[k]);
      }
    }
    assert forall k :: 0 <= k < |h| ==> h[k] != '%' && h[k] != '.' && h[k] != '/' by {
      forall k | 0 <= k < |h| ensures h[k] != '%' && h[k] != '.' && h[k] != '/' {
        if k >= 2 { assert h[k] == t[k - 2]; }
      }
    }
    assert IndexOf(h, '%').None?;
    var ps := Split(h, ':');
    assert ps == ["", "", t] by {
      assert h == "" + [':'] + ([':'] + t);
      SplitFirstPiece("", [':'] + t, ':');
      assert [':'] + t == "" + [':'] + t;
      SplitFirstPiece("", t, ':');
      SplitNoSep(t, ':');
    }
    assert SkipOk(ps, 1);
    assert !IsIPv4(h) by {
      SplitNoSep(h, '.');
    }
  }

  /** `v`, hex digits, a dot and at least one more character, none a
      newline, is an accepted IPvFuture host. */
  lemma FutureHost(x: string, y: string)
    requires |x| > 0 && forall k :: 0 <= k < |x| ==> IsHexDigit(x[k])
    requires |y| > 0 && forall k :: 0 <= k < |y| ==> y[k] != '\n'
    ensures IsIPvFuture("v" + x + "." + y) && !BracketedHostFails("v" + x + "." + y)
  {
    var h := "v" + x + "." + y;
    var r := h[1..];
    assert r == x + "." + y;
    assert HexRun(r) == |x| by {
      assert forall k :: 0 <= k < |x| ==> r[k] == x[k];
      assert r[|x|] == '.';
    }
    assert h[|x| + 1] == '.' && h[|x| + 2..] == y;
  }

  // ---------------------------------------------------------------------
  // One reference
  // ---------------------------------------------------------------------

  /** What happens to one image reference. */
  datatype Outcome =
    | NotHttp       // left alone
    | Unparsable    // urlparse raised; left alone
    | AlreadyThere  // the local file exists; not fetched, rewritten
    | Fetched       // fetched, rewritten
    | FetchFailed   // timeout or request error; left alone

  function OutcomeOf(markdownFile: string, i: nat, url: string, existing: set<string>, fetched: nat -> bool): Outcome
  {
    if !IsHttp(url) then NotHttp
    else if UrlParseFails(url) then Unparsable
    else if LocalPath(markdownFile, i, url) in existing then AlreadyThere
    else if fetched(i) then Fetched
    else FetchFailed
  }

  predicate Rewrites(o: Outcome) { o.AlreadyThere? || o.Fetched? }

  predicate Downloads(o: Outcome) { o.Fetched? || o.FetchFailed? }

  /** An http(s) url that parses is fetched exactly when its file is not
      there, and rewritten exactly when the file is there or the fetch
      succeeds; any other url is neither fetched nor rewritten. */
  lemma OutcomeRules(markdownFile: string, i: nat, url: string, existing: set<string>, fetched: nat -> bool)
    ensures var o, path := OutcomeOf(markdownFile, i, url, existing, fetched), LocalPath(markdownFile, i, url);
      && (Downloads(o) <==> IsHttp(url) && !UrlParseFails(url) && path !in existing)
      && (Rewrites(o) <==> IsHttp(url) && !UrlParseFails(url) && (path in existing || fetched(i)))
  {
  }

  /** The text after the first `n` references of `urls` were handled, each
      one rewritten in the text left by those before it. */
  function RewriteUpTo(markdownFile: string, content: string, urls: seq<string>, n: nat,
                       existing: set<string>, fetched: nat -> bool): string
    requires n <= |urls|
  {
    if n == 0 then content
    else
      var before := RewriteUpTo(markdownFile, content, urls, n - 1, existing, fetched);
      var u := urls[n - 1];
      if Rewrites(OutcomeOf(markdownFile, n - 1, u, existing, fetched)) then
        ReplaceAll(before, u, LocalFileName(markdownFile, n - 1, u))
      else before
  }

  /** Handling reference `n` rewrites its url in the text, if its outcome
      says so. */
  lemma RewriteNext(markdownFile: string, content: string, urls: seq<string>, n: nat,
                    existing: set<string>, fetched: nat -> bool)
    requires n < |urls|
    ensures var before := RewriteUpTo(markdownFile, content, urls, n, existing, fetched);
      RewriteUpTo(markdownFile, content, urls, n + 1, existing, fetched)
      == if Rewrites(OutcomeOf(markdownFile, n, urls[n], existing, fetched))
         then ReplaceAll(before, urls[n], LocalFileName(markdownFile, n, urls[n])) else before
  {
  }

  /** The positions below `n` that `keep` selects, in increasing order. */
  function Picked(n: nat, keep: nat -> bool): (r: seq<nat>)
    ensures forall k :: 0 <= k < |r| ==> r[k] < n && keep(r[k])
    ensures forall k, l :: 0 <= k < l < |r| ==> r[k] < r[l]
    ensures forall i :: 0 <= i < n && keep(i) ==> i in r
  {
    if n == 0 then [] else Picked(n - 1, keep) + (if keep(n - 1) then [n - 1] else [])
  }

  /** Whether reference number `i` asks for a download. */
  function DownloadsAt(markdownFile: string, urls: seq<string>, existing: set<string>, fetched: nat -> bool): nat -> bool
  {
    (i: nat) => i < |urls| && Downloads(OutcomeOf(markdownFile, i, urls[i], existing, fetched))
  }

  /** The download reference number `i` asks for: its url and the path it
      is written to. */
  function AttemptAt(markdownFile: string, urls: seq<string>): nat -> (string, string)
  {
    (i: nat) => if i < |urls| then (urls[i], LocalPath(markdownFile, i, urls[i])) else ("", "")
  }

  /** The downloads requested among the first `n` references, in order. */
  function AttemptsUpTo(markdownFile: string, urls: seq<string>, n: nat,
                        existing: set<string>, fetched: nat -> bool): seq<(string, string)>
    requires n <= |urls|
  {
    MapSeq(Picked(n, DownloadsAt(markdownFile, urls, existing, fetched)), AttemptAt(markdownFile, urls))
  }

  /** Handling reference `n` adds its download, if it asks for one, after
      those already requested. */
  lemma AttemptsNext(markdownFile: string, urls: seq<string>, n: nat, existing: set<string>, fetched: nat -> bool)
    requires n < |urls|
    ensures AttemptsUpTo(markdownFile, urls, n + 1, existing, fetched)
         == AttemptsUpTo(markdownFile, urls, n, existing, fetched)
            + if Downloads(OutcomeOf(markdownFile, n, urls[n], existing, fetched))
              then [(urls[n], LocalPath(markdownFile, n, urls[n]))] else []
  {
    var keep, item := DownloadsAt(markdownFile, urls, existing, fetched), AttemptAt(markdownFile, urls);
    if keep(n) {
      assert Picked(n + 1, keep) == Picked(n, keep) + [n];
      MapSeqSnoc(Picked(n, keep), n, item);
    } else {
      assert Picked(n + 1, keep) == Picked(n, keep);
    }
  }

  /** What `download_images` leaves: the text written back (`None`: the
      file is missing and nothing is written) and the downloads it asked
      for. */
  function Run(markdownFile: string, file: Option<string>, existing: set<string>, fetched: nat -> bool)
    : (Option<string>, seq<(string, string)>)
  {
    match file
    case None => (None, [])
    case Some(content) =>
      var urls := ImageUrls(content, 0);
      (Some(RewriteUpTo(markdownFile, content, urls, |urls|, existing, fetched)),
       AttemptsUpTo(markdownFile, urls, |urls|, existing, fetched))
  }

  /** `download_images(markdown_file)`. */
  method DownloadImages(markdownFile: string, file: Option<string>, existing: set<string>, fetched: nat -> bool)
    returns (written: Option<string>, downloads: seq<(string, string)>)
    ensures (written, downloads) == Run(markdownFile, file, existing, fetched)
  {
    if file.None? {
      return None, [];
    }
    var content := file.value;
    var urls := ImageUrls(content, 0);
    downloads := [];
    for i := 0 to |urls|
      invariant content == RewriteUpTo(markdownFile, file.value, urls, i, existing, fetched)
      invariant downloads == AttemptsUpTo(markdownFile, urls, i, existing, fetched)
    {
      RewriteNext(markdownFile, file.value, urls, i, existing, fetched);
      AttemptsNext(markdownFile, urls, i, existing, fetched);
      var url := urls[i];
      if IsHttp(url) {
        if !UrlParseFails(url) {
          var name := LocalName(DocName(markdownFile), i, Ext(url));
          var path := JoinPath(DirName(markdownFile), name);
          var ok := true;
          if path !in existing {
            downloads := downloads + [(url, path)];
            ok := fetched(i);
          }
          if ok {
            content := ReplaceAll(content, url, name);
          }
        }
      }
    }
    written := Some(content);
  }

  // ---------------------------------------------------------------------
  // Properties
  // ---------------------------------------------------------------------

  /** A missing file: nothing is written and nothing fetched. An existing
      one is always written back. */
  lemma MissingFileNoWrite(markdownFile: string, file: Option<string>, existing: set<string>, fetched: nat -> bool)
    ensures var r := Run(markdownFile, file, existing, fetched);
      (file.None? ==> r.0.None? && r.1 == []) && (file.Some? ==> r.0.Some?)
  {
  }

  /** When no reference among the first `n` is http(s), the text stays as
      it was and nothing is fetched. */
  lemma NoHttpNoChange(markdownFile: string, content: string, urls: seq<string>, n: nat,
                       existing: set<string>, fetched: nat -> bool)
    requires n <= |urls| && forall k :: 0 <= k < n ==> !IsHttp(urls[k])
    ensures RewriteUpTo(markdownFile, content, urls, n, existing, fetched) == content
    ensures AttemptsUpTo(markdownFile, urls, n, existing, fetched) == []
  {
    NoHttpKeepsText(markdownFile, content, urls, n, existing, fetched);
    var keep := DownloadsAt(markdownFile, urls, existing, fetched);
    forall i | 0 <= i < n ensures !keep(i) {
      assert OutcomeOf(markdownFile, i, urls[i], existing, fetched) == NotHttp;
    }
    NonePicked(n, keep);
  }

  lemma {:induction false} NoHttpKeepsText(markdownFile: string, content: string, urls: seq<string>, n: nat,
                                           existing: set<string>, fetched: nat -> bool)
    requires n <= |urls| && forall k :: 0 <= k < n ==> !IsHttp(urls[k])
    ensures RewriteUpTo(markdownFile, content, urls, n, existing, fetched) == content
  {
    if n > 0 {
      NoHttpKeepsText(markdownFile, content, urls, n - 1, existing, fetched);
      assert OutcomeOf(markdownFile, n - 1, urls[n - 1], existing, fetched) == NotHttp;
    }
  }

  /** Nothing is picked when nothing below `n` is selected. */
  lemma {:induction false} NonePicked(n: nat, keep: nat -> bool)
    requires forall i :: 0 <= i < n ==> !keep(i)
    ensures Picked(n, keep) == []
  {
    if n > 0 {
      NonePicked(n - 1, keep);
    }
  }

  /** A rewrite replaces every occurrence of the url: the text after it is
      the pieces between the occurrences joined by the local name, and no
      piece holds the url. */
  lemma RewriteReplacesAll(markdownFile: string, content: string, urls: seq<string>, n: nat,
                           existing: set<string>, fetched: nat -> bool)
    requires n < |urls| && Rewrites(OutcomeOf(markdownFile, n, urls[n], existing, fetched))
    ensures var before := RewriteUpTo(markdownFile, content, urls, n, existing, fetched);
      var pieces := SplitOn(before, urls[n]);
      && RewriteUpTo(markdownFile, content, urls, n + 1, existing, fetched)
         == Join(pieces, LocalFileName(markdownFile, n, urls[n]))
      && forall k :: 0 <= k < |pieces| ==> !Contains(pieces[k], urls[n])
  {
    var before := RewriteUpTo(markdownFile, content, urls, n, existing, fetched);
    ReplaceAllIsJoin(before, urls[n], LocalFileName(markdownFile, n, urls[n]));
    SplitOnPiecesClean(before, urls[n]);
  }

  /** A reference that is left alone leaves the text as it was. */
  lemma LeftAloneNoChange(markdownFile: string, content: string, urls: seq<string>, n: nat,
                          existing: set<string>, fetched: nat -> bool)
    requires n < |urls| && !Rewrites(OutcomeOf(markdownFile, n, urls[n], existing, fetched))
    ensures RewriteUpTo(markdownFile, content, urls, n + 1, existing, fetched)
         == RewriteUpTo(markdownFile, content, urls, n, existing, fetched)
  {
  }

  /** `path` is where reference number `i < n` is saved, for some `i`. */
  predicate SavedPath(path: string, markdownFile: string, urls: seq<string>, n: nat)
    requires n <= |urls|
  {
    exists i :: 0 <= i < n && path == LocalPath(markdownFile, i, urls[i])
  }

  /** Every download requested is of an http(s) url, to a path that did
      not exist and that belongs to one of the references handled. */
  lemma AttemptsFresh(markdownFile: string, urls: seq<string>, n: nat,
                      existing: set<string>, fetched: nat -> bool)
    requires n <= |urls|
    ensures var a := AttemptsUpTo(markdownFile, urls, n, existing, fetched);
      forall k :: 0 <= k < |a| ==>
        IsHttp(a[k].0) && a[k].1 !in existing && SavedPath(a[k].1, markdownFile, urls, n)
  {
    var keep, item := DownloadsAt(markdownFile, urls, existing, fetched), AttemptAt(markdownFile, urls);
    var idx := Picked(n, keep);
    var a := AttemptsUpTo(markdownFile, urls, n, existing, fetched);
    MapSeqAt(idx, item);
    forall k | 0 <= k < |a| ensures IsHttp(a[k].0) && a[k].1 !in existing && SavedPath(a[k].1, markdownFile, urls, n) {
      AttemptFresh(markdownFile, urls, n, idx[k], existing, fetched);
    }
  }

  /** The download of one reference that asks for one. */
  lemma AttemptFresh(markdownFile: string, urls: seq<string>, n: nat, i: nat,
                     existing: set<string>, fetched: nat -> bool)
    requires i < n <= |urls| && DownloadsAt(markdownFile, urls, existing, fetched)(i)
    ensures var x := AttemptAt(markdownFile, urls)(i);
      IsHttp(x.0) && x.1 !in existing && SavedPath(x.1, markdownFile, urls, n)
  {
    var o := OutcomeOf(markdownFile, i, urls[i], existing, fetched);
    assert o.Fetched? || o.FetchFailed?;
  }

  /** No two downloads go to the same path; so a download never changes
      whether a later reference's file exists. */
  lemma AttemptsDistinct(markdownFile: string, urls: seq<string>, n: nat,
                         existing: set<string>, fetched: nat -> bool)
    requires n <= |urls|
    ensures var a := AttemptsUpTo(markdownFile, urls, n, existing, fetched);
      forall k, l :: 0 <= k < l < |a| ==> a[k].1 != a[l].1
  {
    var keep, item := DownloadsAt(markdownFile, urls, existing, fetched), AttemptAt(markdownFile, urls);
    var idx := Picked(n, keep);
    var a := AttemptsUpTo(markdownFile, urls, n, existing, fetched);
    MapSeqAt(idx, item);
    forall k, l | 0 <= k < l < |a| ensures a[k].1 != a[l].1 {
      var i, j := idx[k], idx[l];
      assert a[k] == item(i) && a[l] == item(j);
      LocalPathsDistinct(markdownFile, i, j, urls[i], urls[j]);
    }
  }
}

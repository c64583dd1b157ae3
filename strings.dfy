/**
 * The few Python string operations the converter scripts rely on, with the
 * semantics of CPython's `str` methods: `sep.join`, `s.split(c)`,
 * `s.replace(old, new)`, `f'{i}'` / `f'{i:02}'`, `str.title`, `str.strip`,
 * `str.upper`, `str.lower`, and the POSIX `os.path.basename`.
 *
 * Case mapping and letter tests are modelled for ASCII only.
 */
module Strings {

  // ---------------------------------------------------------------------
  // Searching
  // ---------------------------------------------------------------------

  /** `sub in s` (substring test). */
  predicate Contains(s: string, sub: string)
  {
    sub <= s || (|s| > 0 && Contains(s[1..], sub))
  }

  /** Index of the last occurrence of `c` in `s`, as `str.rfind`. */
  function LastIndexOf(s: string, c: char): (r: Option<nat>)
    ensures r.Some? ==> r.value < |s| && s[r.value] == c
    ensures r.Some? ==> forall j :: r.value < j < |s| ==> s[j] != c
    ensures r.None? ==> forall j :: 0 <= j < |s| ==> s[j] != c
  {
    if |s| == 0 then None
    else if s[|s| - 1] == c then Some(|s| - 1)
    else LastIndexOf(s[..|s| - 1], c)
  }

  /** Index of the first occurrence of `c` in `s`, as `str.find`. */
  function IndexOf(s: string, c: char): (r: Option<nat>)
    ensures r.Some? ==> r.value < |s| && s[r.value] == c
    ensures r.Some? ==> forall j :: 0 <= j < r.value ==> s[j] != c
    ensures r.None? ==> forall j :: 0 <= j < |s| ==> s[j] != c
  {
    if |s| == 0 then None
    else if s[0] == c then Some(0)
    else
      match IndexOf(s[1..], c)
      case None => None
      case Some(i) => Some(i + 1)
  }

  datatype Option<T> = None | Some(value: T)

  /** The outcome of an operation that can raise: a value, or which error. */
  datatype Result<T, E> = Ok(value: T) | Err(error: E)

  // ---------------------------------------------------------------------
  // Mapping over a sequence
  // ---------------------------------------------------------------------

  /** `[f(x) for x in xs]`, built from the end as a loop that appends. */
  function MapSeq<A, B>(xs: seq<A>, f: A -> B): (r: seq<B>)
    ensures |r| == |xs|
  {
    if |xs| == 0 then [] else MapSeq(xs[..|xs| - 1], f) + [f(xs[|xs| - 1])]
  }

  lemma {:induction false} MapSeqAt<A, B>(xs: seq<A>, f: A -> B)
    ensures forall i :: 0 <= i < |xs| ==> MapSeq(xs, f)[i] == f(xs[i])
  {
    if |xs| > 0 {
      var init := xs[..|xs| - 1];
      MapSeqAt(init, f);
      assert forall i :: 0 <= i < |init| ==> MapSeq(xs, f)[i] == MapSeq(init, f)[i];
    }
  }

  lemma MapSeqSnoc<A, B>(xs: seq<A>, x: A, f: A -> B)
    ensures MapSeq(xs + [x], f) == MapSeq(xs, f) + [f(x)]
  {
    assert (xs + [x])[..|xs|] == xs;
  }

  lemma {:induction false} MapSeqAppend<A, B>(xs: seq<A>, ys: seq<A>, f: A -> B)
    ensures MapSeq(xs + ys, f) == MapSeq(xs, f) + MapSeq(ys, f)
    decreases |ys|
  {
    if |ys| > 0 {
      var init, y := ys[..|ys| - 1], ys[|ys| - 1];
      calc {
        MapSeq(xs + ys, f);
        { assert xs + ys == (xs + init) + [y]; }
        MapSeq((xs + init) + [y], f);
        { MapSeqSnoc(xs + init, y, f); }
        MapSeq(xs + init, f) + [f(y)];
        { MapSeqAppend(xs, init, f); }
        (MapSeq(xs, f) + MapSeq(init, f)) + [f(y)];
        MapSeq(xs, f) + (MapSeq(init, f) + [f(y)]);
        { MapSeqSnoc(init, y, f); assert init + [y] == ys; }
        MapSeq(xs, f) + MapSeq(ys, f);
      }
    } else {
      assert xs + ys == xs;
    }
  }

  /** `[x for x in xs if p(x)]`. */
  function FilterSeq<A>(xs: seq<A>, p: A -> bool): (r: seq<A>)
    ensures |r| <= |xs|
  {
    if |xs| == 0 then [] else (if p(xs[0]) then [xs[0]] else []) + FilterSeq(xs[1..], p)
  }

  /** Filtering keeps a sequence whose every element passes. */
  lemma {:induction false} FilterSeqAll<A>(xs: seq<A>, p: A -> bool)
    requires forall k :: 0 <= k < |xs| ==> p(xs[k])
    ensures FilterSeq(xs, p) == xs
  {
    if |xs| > 0 {
      FilterSeqAll(xs[1..], p);
      assert [xs[0]] + xs[1..] == xs;
    }
  }

  lemma {:induction false} FilterSeqAppend<A>(xs: seq<A>, ys: seq<A>, p: A -> bool)
    ensures FilterSeq(xs + ys, p) == FilterSeq(xs, p) + FilterSeq(ys, p)
  {
    if |xs| == 0 {
      assert xs + ys == ys;
    } else {
      var head := if p(xs[0]) then [xs[0]] else [];
      calc {
        FilterSeq(xs + ys, p);
        { assert (xs + ys)[0] == xs[0] && (xs + ys)[1..] == xs[1..] + ys; }
        head + FilterSeq(xs[1..] + ys, p);
        { FilterSeqAppend(xs[1..], ys, p); }
        head + (FilterSeq(xs[1..], p) + FilterSeq(ys, p));
        (head + FilterSeq(xs[1..], p)) + FilterSeq(ys, p);
      }
    }
  }

  // ---------------------------------------------------------------------
  // Join and split
  // ---------------------------------------------------------------------

  /** `sep.join(parts)` */
  function Join(parts: seq<string>, sep: string): string
  {
    if |parts| == 0 then ""
    else if |parts| == 1 then parts[0]
    else parts[0] + sep + Join(parts[1..], sep)
  }

  /** Concatenation of a sequence of strings (`''.join(parts)`). */
  function Concat(parts: seq<string>): string
  {
    if |parts| == 0 then "" else parts[0] + Concat(parts[1..])
  }

  lemma {:induction false} ConcatAppend(parts: seq<string>, last: string)
    ensures Concat(parts + [last]) == Concat(parts) + last
  {
    if |parts| == 0 {
      assert parts + [last] == [last];
    } else {
      assert (parts + [last])[1..] == parts[1..] + [last];
      ConcatAppend(parts[1..], last);
    }
  }

  lemma {:induction false} JoinAppend(parts: seq<string>, last: string, sep: string)
    requires |parts| > 0
    ensures Join(parts + [last], sep) == Join(parts, sep) + sep + last
  {
    if |parts| == 1 {
      assert (parts + [last])[1..] == [last];
    } else {
      assert (parts + [last])[1..] == parts[1..] + [last];
      JoinAppend(parts[1..], last, sep);
    }
  }

  /** `s.split(c)` for a one-character separator: never empty, and empty
      pieces where separators are adjacent or at either end. */
  function Split(s: string, c: char): (r: seq<string>)
    ensures |r| >= 1
  {
    if |s| == 0 then [""]
    else if s[0] == c then [""] + Split(s[1..], c)
    else
      var rest := Split(s[1..], c);
      [[s[0]] + rest[0]] + rest[1..]
  }

  /** Splitting then joining with the same separator gives the string
      back. */
  lemma {:induction false} SplitJoin(s: string, c: char)
    ensures Join(Split(s, c), [c]) == s
  {
    if |s| > 0 {
      SplitJoin(s[1..], c);
      var rest := Split(s[1..], c);
      assert s == [s[0]] + s[1..];
      if s[0] == c {
        assert Join(Split(s, c), [c]) == "" + [c] + Join(rest, [c]) by {
          assert ([""] + rest)[1..] == rest;
        }
      } else {
        JoinExtendFirst([s[0]], rest, [c]);
      }
    }
  }

  /** No piece of a split contains the separator. */
  lemma {:induction false} SplitPiecesClean(s: string, c: char)
    ensures forall k, j :: 0 <= k < |Split(s, c)| && 0 <= j < |Split(s, c)[k]| ==> Split(s, c)[k][j] != c
  {
    if |s| > 0 {
      SplitPiecesClean(s[1..], c);
      var rest := Split(s[1..], c);
      var r := Split(s, c);
      forall k, j | 0 <= k < |r| && 0 <= j < |r[k]| ensures r[k][j] != c {
        if s[0] == c {
          assert r[k] == ([""] + rest)[k];
        } else if k == 0 {
          if j > 0 { assert r[0][j] == rest[0][j - 1]; }
        } else {
          assert r[k] == rest[k];
        }
      }
    }
  }

  /** A string without the separator splits into itself alone. */
  lemma {:induction false} SplitNoSep(x: string, c: char)
    requires forall i :: 0 <= i < |x| ==> x[i] != c
    ensures Split(x, c) == [x]
  {
    if |x| > 0 {
      SplitNoSep(x[1..], c);
      assert [x[0]] + x[1..] == x;
    }
  }

  /** The first piece of a split is everything up to the first separator. */
  lemma {:induction false} SplitFirstPiece(x: string, y: string, c: char)
    requires forall i :: 0 <= i < |x| ==> x[i] != c
    ensures Split(x + [c] + y, c) == [x] + Split(y, c)
  {
    if |x| == 0 {
      assert x + [c] + y == [c] + y;
      assert ([c] + y)[1..] == y;
    } else {
      SplitFirstPiece(x[1..], y, c);
      var s := x + [c] + y;
      assert s[0] == x[0];
      assert s[1..] == x[1..] + [c] + y;
      assert [x[0]] + x[1..] == x;
    }
  }

  // ---------------------------------------------------------------------
  // Replace-all (`str.replace`)
  // ---------------------------------------------------------------------

  /** `s.replace(old, new)`: occurrences are found left to right and do not
      overlap; an empty `pat` inserts `rep` around every character. */
  function ReplaceAll(s: string, pat: string, rep: string): string
    decreases |s|
  {
    if |pat| == 0 then
      if |s| == 0 then rep else rep + [s[0]] + ReplaceAll(s[1..], pat, rep)
    else if pat <= s then rep + ReplaceAll(s[|pat|..], pat, rep)
    else if |s| == 0 then ""
    else [s[0]] + ReplaceAll(s[1..], pat, rep)
  }

  /** The pieces of `s` between the occurrences of `pat` that `ReplaceAll`
      finds (`s.split(pat)` in Python). */
  function SplitOn(s: string, pat: string): (r: seq<string>)
    requires |pat| > 0
    ensures |r| >= 1
    decreases |s|
  {
    if pat <= s then [""] + SplitOn(s[|pat|..], pat)
    else if |s| == 0 then [""]
    else
      var rest := SplitOn(s[1..], pat);
      [[s[0]] + rest[0]] + rest[1..]
  }

  /** Prepending to the first piece prepends to the joined string. */
  lemma JoinExtendFirst(c: string, parts: seq<string>, sep: string)
    requires |parts| >= 1
    ensures Join([c + parts[0]] + parts[1..], sep) == c + Join(parts, sep)
  {
    var r := [c + parts[0]] + parts[1..];
    if |parts| > 1 {
      assert r[1..] == parts[1..];
    }
  }

  /** The pieces put back together with `old` give `s` again. */
  lemma {:induction false} SplitOnJoin(s: string, pat: string)
    requires |pat| > 0
    ensures Join(SplitOn(s, pat), pat) == s
    decreases |s|, 1
  {
    if pat <= s {
      SplitOnJoinAtMatch(s, pat);
    } else if |s| > 0 {
      var rest := SplitOn(s[1..], pat);
      SplitOnJoin(s[1..], pat);
      assert SplitOn(s, pat) == [[s[0]] + rest[0]] + rest[1..];
      JoinExtendFirst([s[0]], rest, pat);
      assert s == [s[0]] + s[1..];
    }
  }

  /** The case where `s` starts with an occurrence: an empty first piece. */
  lemma {:induction false} SplitOnJoinAtMatch(s: string, pat: string)
    requires |pat| > 0 && pat <= s
    ensures Join(SplitOn(s, pat), pat) == s
    decreases |s|, 0
  {
    var tail := s[|pat|..];
    var rest := SplitOn(tail, pat);
    assert SplitOn(s, pat) == [""] + rest;
    assert Join([""] + rest, pat) == pat + Join(rest, pat) by {
      assert ([""] + rest)[1..] == rest;
    }
    SplitOnJoin(tail, pat);
    PrefixRest(s, pat);
  }

  lemma PrefixRest(s: string, pat: string)
    requires pat <= s
    ensures s == pat + s[|pat|..]
  {
    assert s[..|pat|] == pat;
  }

  /** `s.replace(old, new)` is `new.join(s.split(old))`: each occurrence that
      the split cuts at is the one the replacement rewrites. */
  lemma {:induction false} ReplaceAllIsJoin(s: string, pat: string, rep: string)
    requires |pat| > 0
    ensures ReplaceAll(s, pat, rep) == Join(SplitOn(s, pat), rep)
    decreases |s|
  {
    if pat <= s {
      var rest := SplitOn(s[|pat|..], pat);
      ReplaceAllIsJoin(s[|pat|..], pat, rep);
      assert ([""] + rest)[1..] == rest;
      assert Join([""] + rest, rep) == "" + rep + Join(rest, rep);
    } else if |s| > 0 {
      var rest := SplitOn(s[1..], pat);
      ReplaceAllIsJoin(s[1..], pat, rep);
      JoinExtendFirst([s[0]], rest, rep);
    }
  }

  /** No piece of the split holds an occurrence of `old`: every occurrence
      was cut at, so `ReplaceAll` leaves none of them in place. */
  lemma {:induction false} SplitOnPiecesClean(s: string, pat: string)
    requires |pat| > 0
    ensures forall k :: 0 <= k < |SplitOn(s, pat)| ==> !Contains(SplitOn(s, pat)[k], pat)
    decreases |s|
  {
    EmptyContainsNothing(pat);
    if pat <= s {
      SplitOnPiecesClean(s[|pat|..], pat);
      var rest := SplitOn(s[|pat|..], pat);
      forall k | 1 <= k < |SplitOn(s, pat)| ensures !Contains(SplitOn(s, pat)[k], pat) {
        assert SplitOn(s, pat)[k] == rest[k - 1];
      }
    } else if |s| > 0 {
      var rest := SplitOn(s[1..], pat);
      SplitOnPiecesClean(s[1..], pat);
      var r := SplitOn(s, pat);
      FirstPieceIsPrefix(s[1..], pat);
      var p := [s[0]] + rest[0];
      assert p <= s;
      assert !(pat <= p);
      assert p[1..] == rest[0];
      assert !Contains(p, pat);
      forall k | 1 <= k < |r| ensures !Contains(r[k], pat) {
        assert r[k] == rest[k];
      }
    }
  }

  lemma EmptyContainsNothing(pat: string)
    requires |pat| > 0
    ensures !Contains("", pat)
  {
  }

  lemma {:induction false} FirstPieceIsPrefix(s: string, pat: string)
    requires |pat| > 0
    ensures SplitOn(s, pat)[0] <= s
    decreases |s|
  {
    if pat <= s {
    } else if |s| == 0 {
    } else {
      FirstPieceIsPrefix(s[1..], pat);
    }
  }

  /** A string in which `pat` does not occur is left as it is. */
  lemma {:induction false} ReplaceAllAbsent(s: string, pat: string, rep: string)
    requires |pat| > 0 && !Contains(s, pat)
    ensures ReplaceAll(s, pat, rep) == s
    decreases |s|
  {
    if |s| > 0 {
      ReplaceAllAbsent(s[1..], pat, rep);
    }
  }

  // ---------------------------------------------------------------------
  // Decimal formatting (`f'{i}'`, `f'{i:02}'`)
  // ---------------------------------------------------------------------

  predicate IsDigit(c: char) { '0' <= c <= '9' }

  function DigitChar(d: nat): (c: char)
    requires d < 10
    ensures IsDigit(c)
  {
    "0123456789"[d]
  }

  function DigitValue(c: char): (d: nat)
    requires IsDigit(c)
    ensures d < 10
  {
    (c as int - '0' as int) as nat
  }

  /** `f'{n}'`: decimal, no leading zeros. */
  function NatToString(n: nat): (s: string)
    ensures |s| >= 1 && forall i :: 0 <= i < |s| ==> IsDigit(s[i])
  {
    if n < 10 then [DigitChar(n)] else NatToString(n / 10) + [DigitChar(n % 10)]
  }

  /** `f'{n:02}'`: decimal, zero-padded to at least two characters. */
  function PadTwo(n: nat): (s: string)
    ensures |s| >= 2 && forall i :: 0 <= i < |s| ==> IsDigit(s[i])
  {
    if n < 10 then "0" + NatToString(n) else NatToString(n)
  }

  /** Value of a string of decimal digits. */
  function ParseNat(s: string): nat
    requires forall i :: 0 <= i < |s| ==> IsDigit(s[i])
  {
    if |s| == 0 then 0 else ParseNat(s[..|s| - 1]) * 10 + DigitValue(s[|s| - 1])
  }

  lemma {:induction false} ParseNatToString(n: nat)
    ensures ParseNat(NatToString(n)) == n
  {
    if n >= 10 {
      var s := NatToString(n);
      assert s[..|s| - 1] == NatToString(n / 10);
      ParseNatToString(n / 10);
    }
  }

  lemma {:induction false} ParseNatLeadingZero(s: string)
    requires forall i :: 0 <= i < |s| ==> IsDigit(s[i])
    ensures ParseNat("0" + s) == ParseNat(s)
  {
    if |s| > 0 {
      assert ("0" + s)[..|"0" + s| - 1] == "0" + s[..|s| - 1];
      ParseNatLeadingZero(s[..|s| - 1]);
    }
  }

  /** Zero-padding loses nothing: the number can be read back. */
  lemma PadTwoRoundTrip(n: nat)
    ensures ParseNat(PadTwo(n)) == n
  {
    ParseNatToString(n);
    if n < 10 { ParseNatLeadingZero(NatToString(n)); }
  }

  // ---------------------------------------------------------------------
  // Case mapping, whitespace
  // ---------------------------------------------------------------------

  predicate IsUpper(c: char) { 'A' <= c <= 'Z' }
  predicate IsLower(c: char) { 'a' <= c <= 'z' }
  /** A cased character in the sense of `str.title` (ASCII only). */
  predicate IsLetter(c: char) { IsUpper(c) || IsLower(c) }

  function UpperChar(c: char): char
  {
    if IsLower(c) then (c as int - 32) as char else c
  }

  function LowerChar(c: char): char
  {
    if IsUpper(c) then (c as int + 32) as char else c
  }

  /** `s.upper()` */
  function Upper(s: string): (r: string)
    ensures |r| == |s| && forall i :: 0 <= i < |s| ==> r[i] == UpperChar(s[i])
  {
    if |s| == 0 then "" else [UpperChar(s[0])] + Upper(s[1..])
  }

  /** `s.lower()` */
  function Lower(s: string): (r: string)
    ensures |r| == |s| && forall i :: 0 <= i < |s| ==> r[i] == LowerChar(s[i])
  {
    if |s| == 0 then "" else [LowerChar(s[0])] + Lower(s[1..])
  }

  /** `str.title`, carried out left to right: a cased character is upper-cased
      when the character before it is not cased, lower-cased otherwise. */
  function TitleFrom(s: string, afterCased: bool): string
  {
    if |s| == 0 then ""
    else
      var c := if afterCased then LowerChar(s[0]) else UpperChar(s[0]);
      [c] + TitleFrom(s[1..], IsLetter(s[0]))
  }

  function TitleCase(s: string): string
  {
    TitleFrom(s, false)
  }

  /** The title-cased string position by position: a letter is upper-cased
      exactly when it starts the string or follows a non-letter; everything
      else is unchanged or lower-cased. */
  lemma {:induction false} TitleCaseAt(s: string)
    ensures |TitleCase(s)| == |s|
    ensures forall i :: 0 <= i < |s| ==>
      TitleCase(s)[i] == (if i == 0 || !IsLetter(s[i - 1]) then UpperChar(s[i]) else LowerChar(s[i]))
  {
    TitleFromAt(s, false);
  }

  lemma {:induction false} TitleFromAt(s: string, afterCased: bool)
    ensures |TitleFrom(s, afterCased)| == |s|
    ensures forall i :: 0 <= i < |s| ==>
      TitleFrom(s, afterCased)[i] ==
        (if (if i == 0 then afterCased else IsLetter(s[i - 1])) then LowerChar(s[i]) else UpperChar(s[i]))
  {
    if |s| > 0 {
      TitleFromAt(s[1..], IsLetter(s[0]));
      var r := TitleFrom(s, afterCased);
      forall i | 1 <= i < |s|
        ensures r[i] == (if IsLetter(s[i - 1]) then LowerChar(s[i]) else UpperChar(s[i]))
      {
        assert r[i] == TitleFrom(s[1..], IsLetter(s[0]))[i - 1];
        if i > 1 { assert s[1..][i - 2] == s[i - 1]; }
      }
    }
  }

  /** Characters for which `str.isspace()` holds (the `\s` class of `re`). */
  predicate IsSpace(c: char)
  {
    c == ' ' || ('\t' <= c <= '\r') || ('\U{1C}' <= c <= '\U{1F}') || c == '\U{85}' || c == '\U{A0}'
    || c == '\U{1680}' || ('\U{2000}' <= c <= '\U{200A}') || c == '\U{2028}' || c == '\U{2029}'
    || c == '\U{202F}' || c == '\U{205F}' || c == '\U{3000}'
  }

  function StripLeft(s: string): (r: string)
    ensures |r| <= |s| && r == s[|s| - |r|..]
    ensures |r| > 0 ==> !IsSpace(r[0])
    ensures forall i :: 0 <= i < |s| - |r| ==> IsSpace(s[i])
  {
    if |s| > 0 && IsSpace(s[0]) then StripLeft(s[1..]) else s
  }

  function StripRight(s: string): (r: string)
    ensures |r| <= |s| && r == s[..|r|]
    ensures |r| > 0 ==> !IsSpace(r[|r| - 1])
    ensures forall i :: |r| <= i < |s| ==> IsSpace(s[i])
  {
    if |s| > 0 && IsSpace(s[|s| - 1]) then StripRight(s[..|s| - 1]) else s
  }

  /** `s.strip()` */
  function Strip(s: string): string
  {
    StripRight(StripLeft(s))
  }

  /** `c * n` */
  function Repeat(c: char, n: nat): (r: string)
    ensures |r| == n && forall i :: 0 <= i < n ==> r[i] == c
  {
    if n == 0 then "" else [c] + Repeat(c, n - 1)
  }

  /** Every occurrence of character `a` replaced by `b` (`s.replace(a, b)` for
      one-character strings). */
  function ReplaceChar(s: string, a: char, b: char): (r: string)
    ensures |r| == |s|
    ensures forall i :: 0 <= i < |s| ==> r[i] == (if s[i] == a then b else s[i])
  {
    if |s| == 0 then "" else [if s[0] == a then b else s[0]] + ReplaceChar(s[1..], a, b)
  }

  // ---------------------------------------------------------------------
  // Paths (POSIX)
  // ---------------------------------------------------------------------

  /** `os.path.basename(p)`: everything after the last '/'. */
  function Basename(p: string): (r: string)
    ensures forall i :: 0 <= i < |r| ==> r[i] != '/'
    ensures |r| <= |p| && r == p[|p| - |r|..]
    ensures |r| < |p| ==> p[|p| - |r| - 1] == '/'
  {
    match LastIndexOf(p, '/')
    case None => p
    case Some(i) => p[i + 1..]
  }

  /** `s.split('.')[0]`: everything before the first '.'. */
  function BeforeFirstDot(s: string): (r: string)
    ensures r <= s
    ensures forall i :: 0 <= i < |r| ==> r[i] != '.'
    ensures |r| < |s| ==> s[|r|] == '.'
  {
    if |s| == 0 || s[0] == '.' then "" else [s[0]] + BeforeFirstDot(s[1..])
  }
}

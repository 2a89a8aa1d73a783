/**
  Removing the licence boilerplate around a book: `strip_headers`.

  Each marker is one of two regular-expression shapes, compiled with
  `re.IGNORECASE`: a plain word, or `lead.*tail` where `.` is any character but
  a newline. Searching a text for a marker finds the leftmost start at which it
  matches and, there, the longest match (the greedy `.*` backtracks from the
  end of the line). The header pass cuts the text after the first match of the
  first header marker that matches at all; the footer pass, on what is left,
  cuts before the first match of the first footer marker that matches; the
  result is stripped of surrounding whitespace.
 */
module Boilerplate {
  import opened Wrappers
  import opened Text

  /** `Literal(w)` is the regular expression `w`; `Line(lead, tail)` is `lead.*tail`.
      The marker words contain no regular-expression syntax of their own. */
  datatype Pattern = Literal(word: string) | Line(lead: string, tail: string)

  /** A match: the characters `text[start..end]`. */
  datatype Span = Span(start: nat, end: nat)

  /** The header markers, in the order they are tried (lines 73-75). */
  const HeaderPatterns: seq<Pattern> := [
    Line("*** START OF THIS PROJECT GUTENBERG EBOOK ", " ***"),
    Line("Project Gutenberg's ", ""),
    Literal("START OF THE PROJECT GUTENBERG EBOOK")
  ]

  /** The footer markers, in the order they are tried (lines 78-80). */
  const FooterPatterns: seq<Pattern> := [
    Line("*** END OF THIS PROJECT GUTENBERG EBOOK ", " ***"),
    Line("End of Project Gutenberg's ", ""),
    Literal("END OF THE PROJECT GUTENBERG EBOOK")
  ]

  /** The word `w` occurs, ignoring case, in `t` at index `s`. */
  predicate WordAt(w: string, t: string, s: int)
  {
    0 <= s <= |t| && FoldPrefix(w, t[s..])
  }

  /** No newline among `t[i..j]`. */
  predicate NoNewline(t: string, i: int, j: int)
    requires 0 <= i <= j <= |t|
  {
    forall k :: i <= k < j ==> t[k] != '\n'
  }

  /** The pattern matches exactly `t[s..e]`. For `lead.*tail` the tail starts at
      `e - |tail|`, at or after the end of the lead, with no newline between. */
  predicate MatchesAt(p: Pattern, t: string, s: int, e: int)
  {
    match p
    case Literal(w) => WordAt(w, t, s) && e == s + |w|
    case Line(a, b) =>
      && WordAt(a, t, s) && WordAt(b, t, e - |b|)
      && s + |a| <= e - |b| && NoNewline(t, s + |a|, e - |b|)
  }

  lemma MatchBounds(p: Pattern, t: string, s: int, e: int)
    requires MatchesAt(p, t, s, e)
    ensures 0 <= s <= e <= |t|
  {
  }

  /** The first newline at or after `m`, or the end of `t`. */
  function LineEnd(t: string, m: nat): (l: nat)
    requires m <= |t|
    ensures m <= l <= |t|
    ensures NoNewline(t, m, l)
    ensures l < |t| ==> t[l] == '\n'
    decreases |t| - m
  {
    if m == |t| || t[m] == '\n' then m else LineEnd(t, m + 1)
  }

  /** The last index in `[lo, hi]` at which `w` occurs. */
  function LastWordAt(w: string, t: string, lo: nat, hi: int): (y: Option<nat>)
    ensures y.Some? ==> lo <= y.value <= hi && WordAt(w, t, y.value)
    ensures y.Some? ==> forall x :: y.value < x <= hi ==> !WordAt(w, t, x)
    ensures y.None? ==> forall x :: lo <= x <= hi ==> !WordAt(w, t, x)
    decreases hi - lo + 1
  {
    if hi < lo then None
    else if WordAt(w, t, hi) then Some(hi)
    else LastWordAt(w, t, lo, hi - 1)
  }

  /** The end of the longest match of `p` starting at `s`, if it matches there. */
  function LongestAt(p: Pattern, t: string, s: nat): (e: Option<nat>)
    ensures e.Some? ==> MatchesAt(p, t, s, e.value)
    ensures e.Some? ==> forall x :: MatchesAt(p, t, s, x) ==> x <= e.value
    ensures e.None? ==> forall x :: !MatchesAt(p, t, s, x)
  {
    match p
    case Literal(w) =>
      if WordAt(w, t, s) then Some(s + |w|) else None
    case Line(a, b) =>
      if !WordAt(a, t, s) then None
      else
        var m := s + |a|;
        var l := LineEnd(t, m);
        NewlineBound(t, m, l);
        match LastWordAt(b, t, m, l)
        case None => None
        case Some(y) => Some(y + |b|)
  }

  /** Between `m` and the end of its line there is no newline, and no stretch
      from `m` without a newline reaches past it. */
  lemma NewlineBound(t: string, m: nat, l: nat)
    requires m <= l <= |t| && NoNewline(t, m, l) && (l < |t| ==> t[l] == '\n')
    ensures forall y :: l < y <= |t| ==> !NoNewline(t, m, y)
  {
    forall y | l < y <= |t|
      ensures !NoNewline(t, m, y)
    {
      assert t[l] == '\n';
    }
  }

  /** `re.search` from index `s` on: the leftmost start at or after `s` where
      `p` matches, with the longest match there. */
  function SearchFrom(p: Pattern, t: string, s: nat): (r: Option<Span>)
    ensures r.Some? ==> s <= r.value.start && MatchesAt(p, t, r.value.start, r.value.end)
    ensures r.Some? ==> forall x :: MatchesAt(p, t, r.value.start, x) ==> x <= r.value.end
    ensures r.Some? ==> forall s', x :: s <= s' < r.value.start ==> !MatchesAt(p, t, s', x)
    ensures r.None? ==> forall s', x :: s <= s' ==> !MatchesAt(p, t, s', x)
    decreases |t| + 1 - s
  {
    if s > |t| then
      assert forall s', x :: s <= s' ==> !MatchesAt(p, t, s', x) by {
        forall s', x | s <= s' && MatchesAt(p, t, s', x) ensures false {
          MatchBounds(p, t, s', x);
        }
      }
      None
    else
      match LongestAt(p, t, s)
      case Some(e) => Some(Span(s, e))
      case None => SearchFrom(p, t, s + 1)
  }

  /** `re.search(pattern, t, re.IGNORECASE)`: the match found, or none.
      `re.split(pattern, t, maxsplit=1)` splits at this same match into
      `t[..start]` and `t[end..]`; `SearchIsLeftmostLongest` says which match it is. */
  function Search(p: Pattern, t: string): (r: Option<Span>)
    ensures r.Some? ==> r.value.start <= r.value.end <= |t|
  {
    var r := SearchFrom(p, t, 0);
    assert r.Some? ==> r.value.start <= r.value.end <= |t| by {
      if r.Some? {
        MatchBounds(p, t, r.value.start, r.value.end);
      }
    }
    r
  }

  /** The match `Search` finds is a match; nothing matches further left; none
      at the same start is longer; and `Search` finds nothing only when the
      pattern matches nowhere. */
  lemma SearchIsLeftmostLongest(p: Pattern, t: string)
    ensures Search(p, t).Some? ==> MatchesAt(p, t, Search(p, t).value.start, Search(p, t).value.end)
    ensures Search(p, t).Some? ==>
              forall x :: MatchesAt(p, t, Search(p, t).value.start, x) ==> x <= Search(p, t).value.end
    ensures Search(p, t).Some? ==>
              forall s', x :: 0 <= s' < Search(p, t).value.start ==> !MatchesAt(p, t, s', x)
    ensures Search(p, t).None? <==> forall s', x :: !MatchesAt(p, t, s', x)
  {
    var r := SearchFrom(p, t, 0);
    assert Search(p, t) == r;
    if r.Some? {
      forall s', x | MatchesAt(p, t, s', x) && s' < 0 ensures false {
        MatchBounds(p, t, s', x);
      }
    } else {
      forall s', x | MatchesAt(p, t, s', x) ensures false {
        MatchBounds(p, t, s', x);
      }
    }
  }

  /** The word a pattern starts with: every match begins with it. */
  function FirstWord(p: Pattern): string
  {
    match p
    case Literal(w) => w
    case Line(a, _) => a
  }

  /** Every match of a pattern starts with its first word. */
  lemma MatchStartsWithWord(p: Pattern, t: string, s: int, e: int)
    ensures MatchesAt(p, t, s, e) ==> WordAt(FirstWord(p), t, s)
  {
  }

  /** A marker whose first word occurs nowhere in the text is not found. */
  lemma MarkerAbsent(p: Pattern, t: string)
    requires forall s :: 0 <= s <= |t| ==> !WordAt(FirstWord(p), t, s)
    ensures Search(p, t).None?
  {
    SearchIsLeftmostLongest(p, t);
    forall s', x ensures !MatchesAt(p, t, s', x) {
      MatchStartsWithWord(p, t, s', x);
    }
  }

  /** A pattern of a cascade that matched, and where. */
  datatype Hit = Hit(index: nat, span: Span)

  /** The first found match, from `i` on, with its position in `rs`. */
  function FirstFound(rs: seq<Option<Span>>, i: nat): (h: Option<Hit>)
    requires i <= |rs|
    ensures h.Some? ==> i <= h.value.index < |rs| && rs[h.value.index] == Some(h.value.span)
    ensures h.Some? ==> forall j :: i <= j < h.value.index ==> rs[j].None?
    ensures h.None? <==> forall j :: i <= j < |rs| ==> rs[j].None?
    decreases |rs| - i
  {
    if i == |rs| then None
    else match rs[i]
      case Some(sp) => Some(Hit(i, sp))
      case None => FirstFound(rs, i + 1)
  }

  /** The first pattern of the cascade `ps` that matches `t`, with its match:
      the one a loop that stops at the first `re.search` success applies. */
  function FirstHit(ps: seq<Pattern>, t: string): (h: Option<Hit>)
    ensures h.Some? ==> h.value.index < |ps| && Search(ps[h.value.index], t) == Some(h.value.span)
    ensures h.Some? ==> forall j :: 0 <= j < h.value.index ==> Search(ps[j], t).None?
    ensures h.None? <==> forall j :: 0 <= j < |ps| ==> Search(ps[j], t).None?
  {
    var rs := seq(|ps|, j requires 0 <= j < |ps| => Search(ps[j], t));
    assert forall j :: 0 <= j < |ps| ==> rs[j] == Search(ps[j], t);
    FirstFound(rs, 0)
  }

  /** The header pass: the text after the first match of the first header
      marker that matches, or the whole text. */
  function AfterHeader(t: string): (r: string)
  {
    match FirstHit(HeaderPatterns, t)
    case None => t
    case Some(h) => t[h.span.end..]
  }

  /** The footer pass: the text before the first match of the first footer
      marker that matches, or the whole text. */
  function BeforeFooter(t: string): (r: string)
  {
    match FirstHit(FooterPatterns, t)
    case None => t
    case Some(h) => t[..h.span.start]
  }

  /** What `strip_headers(text)` returns. */
  function Cleaned(text: string): string
  {
    Strip(BeforeFooter(AfterHeader(text)))
  }

  /** The header loop of `strip_headers`: try the header markers in order and,
      at the first that matches, keep only the text after its first match. */
  method CutHeader(text: string) returns (t: string, headerFound: bool)
    ensures t == AfterHeader(text)
    ensures headerFound <==> FirstHit(HeaderPatterns, text).Some?
  {
    t := text;
    headerFound := false;
    var i := 0;
    while i < |HeaderPatterns|
      invariant 0 <= i <= |HeaderPatterns|
      invariant t == text && !headerFound
      invariant forall j :: 0 <= j < i ==> Search(HeaderPatterns[j], text).None?
    {
      var m := Search(HeaderPatterns[i], t);
      if m.Some? {
        // re.split(pattern, text, maxsplit=1)[-1]
        t := t[m.value.end..];
        headerFound := true;
        break;
      }
      i := i + 1;
    }
    // without a header a warning is logged and the text is kept whole
    if headerFound {
      assert FirstHit(HeaderPatterns, text) == Some(Hit(i, Search(HeaderPatterns[i], text).value));
    }
  }

  /** The footer loop of `strip_headers`: try the footer markers in order and,
      at the first that matches, keep only the text before its first match. */
  method CutFooter(text: string) returns (t: string, footerFound: bool)
    ensures t == BeforeFooter(text)
    ensures footerFound <==> FirstHit(FooterPatterns, text).Some?
  {
    t := text;
    footerFound := false;
    var i := 0;
    while i < |FooterPatterns|
      invariant 0 <= i <= |FooterPatterns|
      invariant t == text && !footerFound
      invariant forall j :: 0 <= j < i ==> Search(FooterPatterns[j], text).None?
    {
      var m := Search(FooterPatterns[i], t);
      if m.Some? {
        // re.split(pattern, text, maxsplit=1)[0]
        t := t[..m.value.start];
        footerFound := true;
        break;
      }
      i := i + 1;
    }
    // without a footer a warning is logged and the text is kept whole
    if footerFound {
      assert FirstHit(FooterPatterns, text) == Some(Hit(i, Search(FooterPatterns[i], text).value));
    }
  }

  /** `strip_headers(text)`: the header pass, the footer pass on what it leaves,
      then `strip()`. */
  method StripHeaders(text: string) returns (r: string)
    ensures r == Cleaned(text)
  {
    var afterHeader, _ := CutHeader(text);
    var beforeFooter, _ := CutFooter(afterHeader);
    r := Strip(beforeFooter);
  }

  /** The header pass leaves a suffix of its input. */
  lemma AfterHeaderIsSuffix(text: string)
    ensures |AfterHeader(text)| <= |text|
    ensures AfterHeader(text) == text[|text| - |AfterHeader(text)|..]
  {
    match FirstHit(HeaderPatterns, text)
    case None =>
    case Some(h) =>
  }

  /** The footer pass leaves a prefix of its input. */
  lemma BeforeFooterIsPrefix(text: string)
    ensures |BeforeFooter(text)| <= |text|
    ensures BeforeFooter(text) == text[..|BeforeFooter(text)|]
  {
    match FirstHit(FooterPatterns, text)
    case None =>
    case Some(h) =>
  }

  /** Stripping a prefix of a suffix of a text leaves a stretch of the text. */
  lemma StripOfInnerSlice(text: string, a: string, b: string)
    requires |a| <= |text| && a == text[|text| - |a|..]
    requires |b| <= |a| && b == a[..|b|]
    ensures exists i, j :: 0 <= i <= j <= |text| && Strip(b) == text[i..j]
  {
    var i0 := |text| - |a|;
    assert b == text[i0..i0 + |b|];
    var p, q := StripStart(b), StripEnd(b);
    assert Strip(b) == b[p..q];
    assert b[p..q] == text[i0 + p..i0 + q] by {
      forall k | 0 <= k < q - p ensures b[p..q][k] == text[i0 + p..i0 + q][k] {
        assert b[p + k] == text[i0 + p + k];
      }
    }
  }

  /** The result is one contiguous stretch of the input, with no whitespace at
      either end. */
  lemma CleanedIsTrimmedSlice(text: string)
    ensures exists i, j :: 0 <= i <= j <= |text| && Cleaned(text) == text[i..j]
    ensures Cleaned(text) != [] ==> !IsSpace(Cleaned(text)[0]) && !IsSpace(Cleaned(text)[|Cleaned(text)| - 1])
  {
    var a := AfterHeader(text);
    AfterHeaderIsSuffix(text);
    BeforeFooterIsPrefix(a);
    StripOfInnerSlice(text, a, BeforeFooter(a));
    StripTrims(BeforeFooter(a));
  }

  /** With no header marker anywhere, the start of the text is kept: the result
      is a stripped prefix of the input. */
  lemma NoHeaderKeepsStart(text: string)
    requires forall j :: 0 <= j < |HeaderPatterns| ==> Search(HeaderPatterns[j], text).None?
    ensures exists n :: 0 <= n <= |text| && Cleaned(text) == Strip(text[..n])
  {
    assert AfterHeader(text) == text;
    match FirstHit(FooterPatterns, text)
    case None =>
      assert Cleaned(text) == Strip(text[..|text|]) by { assert text[..|text|] == text; }
    case Some(h) =>
      assert Cleaned(text) == Strip(text[..h.span.start]);
  }

  /** With no footer marker in what the header pass leaves, the end of the text
      is kept: the result is a stripped suffix of the input. */
  lemma NoFooterKeepsEnd(text: string)
    requires forall j :: 0 <= j < |FooterPatterns| ==> Search(FooterPatterns[j], AfterHeader(text)).None?
    ensures exists n :: 0 <= n <= |text| && Cleaned(text) == Strip(text[n..])
  {
    match FirstHit(HeaderPatterns, text)
    case None =>
      assert Cleaned(text) == Strip(text[0..]) by { assert text[0..] == text; }
    case Some(h) =>
      assert Cleaned(text) == Strip(text[h.span.end..]);
  }

  /** With neither marker the text comes back only stripped of surrounding whitespace. */
  lemma NoMarkersOnlyStrips(text: string)
    requires forall j :: 0 <= j < |HeaderPatterns| ==> Search(HeaderPatterns[j], text).None?
    requires forall j :: 0 <= j < |FooterPatterns| ==> Search(FooterPatterns[j], text).None?
    ensures Cleaned(text) == Strip(text)
  {
    assert AfterHeader(text) == text;
  }

  /** Only the first matching header marker is applied: when marker `k` matches
      and no earlier one does, the header pass keeps exactly the text after the
      leftmost match of marker `k`, whatever later markers would match. */
  lemma FirstHeaderMarkerWins(text: string, k: nat)
    requires k < |HeaderPatterns| && Search(HeaderPatterns[k], text).Some?
    requires forall j :: 0 <= j < k ==> Search(HeaderPatterns[j], text).None?
    ensures AfterHeader(text) == text[Search(HeaderPatterns[k], text).value.end..]
    ensures forall s', x :: 0 <= s' < Search(HeaderPatterns[k], text).value.start ==> !MatchesAt(HeaderPatterns[k], text, s', x)
  {
    var h := FirstHit(HeaderPatterns, text);
    assert h.Some? && h.value.index == k;
    SearchIsLeftmostLongest(HeaderPatterns[k], text);
  }

  /** Only the first matching footer marker is applied, on the text the header
      pass leaves, cutting before its leftmost match. */
  lemma FirstFooterMarkerWins(text: string, k: nat)
    requires k < |FooterPatterns| && Search(FooterPatterns[k], AfterHeader(text)).Some?
    requires forall j :: 0 <= j < k ==> Search(FooterPatterns[j], AfterHeader(text)).None?
    ensures Cleaned(text) == Strip(AfterHeader(text)[..Search(FooterPatterns[k], AfterHeader(text)).value.start])
    ensures forall s', x :: 0 <= s' < Search(FooterPatterns[k], AfterHeader(text)).value.start ==>
              !MatchesAt(FooterPatterns[k], AfterHeader(text), s', x)
  {
    var h := FirstHit(FooterPatterns, AfterHeader(text));
    assert h.Some? && h.value.index == k;
    SearchIsLeftmostLongest(FooterPatterns[k], AfterHeader(text));
  }

  /** A stretch of `t` equal to `w` is an occurrence of `w`. */
  lemma WordAtCopy(w: string, t: string, s: nat)
    requires s + |w| <= |t| && t[s..s + |w|] == w
    ensures WordAt(w, t, s)
  {
    forall k | 0 <= k < |w| ensures Fold(w[k]) == Fold(t[s..][k]) {
      assert t[s..][k] == t[s..s + |w|][k];
    }
  }

  /** A word whose first letter differs, ignoring case, from `t[s]` does not occur at `s`. */
  lemma NotWordAt(w: string, t: string, s: nat)
    requires s < |t| && w != [] && Fold(w[0]) != Fold(t[s])
    ensures !WordAt(w, t, s)
  {
    assert t[s..][0] == t[s];
  }

  /** The line from `m` ends at the first newline `l` after it. */
  lemma {:induction false} LineEndAt(t: string, m: nat, l: nat)
    requires m <= l <= |t| && NoNewline(t, m, l) && (l < |t| ==> t[l] == '\n')
    ensures LineEnd(t, m) == l
    decreases l - m
  {
    if m < l {
      LineEndAt(t, m + 1, l);
    }
  }

  /** `LastWordAt` finds the occurrence `y` when no later one lies in range. */
  lemma {:induction false} LastWordAtIs(w: string, t: string, lo: nat, hi: int, y: nat)
    requires lo <= y <= hi && WordAt(w, t, y)
    requires forall x :: y < x <= hi ==> !WordAt(w, t, x)
    ensures LastWordAt(w, t, lo, hi) == Some(y)
    decreases hi - lo + 1
  {
    if y < hi {
      LastWordAtIs(w, t, lo, hi - 1, y);
    }
  }

  /** `re.search` moves past a start where the pattern's first word does not occur. */
  lemma SearchFromSkips(p: Pattern, t: string, s: nat)
    requires s <= |t| && !WordAt(FirstWord(p), t, s)
    ensures SearchFrom(p, t, s) == SearchFrom(p, t, s + 1)
  {
    var e := LongestAt(p, t, s);
    if e.Some? {
      MatchStartsWithWord(p, t, s, e.value);
    }
  }

  /** A book as the site publishes it: the start marker line, the body, the end marker line. */
  const SampleHeader: string := "*** START OF THIS PROJECT GUTENBERG EBOOK X ***"
  const SampleFooter: string := "*** END OF THIS PROJECT GUTENBERG EBOOK X ***"
  const SampleBook: string := SampleHeader + "\nBODY\n" + SampleFooter

  /** The first header marker matches the whole first line of the sample book. */
  lemma SampleHeaderFound()
    ensures FirstHit(HeaderPatterns, SampleBook) == Some(Hit(0, Span(0, |SampleHeader|)))
  {
    var t := SampleBook;
    var lead, tail := "*** START OF THIS PROJECT GUTENBERG EBOOK ", " ***";
    assert HeaderPatterns[0] == Line(lead, tail);
    assert |lead| == 42 && |SampleHeader| == 47;
    WordAtCopy(lead, t, 0);
    LineEndAt(t, 42, 47);
    WordAtCopy(tail, t, 43);
    forall x | 43 < x <= 47 ensures !WordAt(tail, t, x) {
      NotWordAt(tail, t, x);
    }
    LastWordAtIs(tail, t, 42, 47, 43);
    assert LongestAt(HeaderPatterns[0], t, 0) == Some(47);
    assert Search(HeaderPatterns[0], t) == Some(Span(0, 47));
  }

  /** The first footer marker matches the whole footer line, where it starts. */
  lemma SampleFooterLine(a: string)
    requires a == "\nBODY\n" + SampleFooter
    ensures SearchFrom(FooterPatterns[0], a, 6) == Some(Span(6, 51))
  {
    var lead, tail := "*** END OF THIS PROJECT GUTENBERG EBOOK ", " ***";
    assert FooterPatterns[0] == Line(lead, tail);
    assert |lead| == 40 && |a| == 51;
    WordAtCopy(lead, a, 6);
    LineEndAt(a, 46, 51);
    WordAtCopy(tail, a, 47);
    LastWordAtIs(tail, a, 46, 51, 47);
    assert LongestAt(FooterPatterns[0], a, 6) == Some(51);
  }

  /** No footer match starts at a character of a leading `\nBODY\n`. */
  lemma SampleBodyCharSkipped(a: string, s: nat)
    requires |a| >= 6 && a[..6] == "\nBODY\n" && s < 6
    ensures SearchFrom(FooterPatterns[0], a, s) == SearchFrom(FooterPatterns[0], a, s + 1)
  {
    var p := FooterPatterns[0];
    assert FirstWord(p)[0] == '*';
    assert a[s] == a[..6][s];
    NotWordAt(FirstWord(p), a, s);
    hide SearchFrom, LongestAt;
    SearchFromSkips(p, a, s);
  }

  /** No footer match starts inside a leading `\nBODY\n`. */
  lemma SampleBodySkipped(a: string)
    requires |a| >= 6 && a[..6] == "\nBODY\n"
    ensures SearchFrom(FooterPatterns[0], a, 0) == SearchFrom(FooterPatterns[0], a, 6)
  {
    hide SearchFrom;
    SampleBodyCharSkipped(a, 0);
    SampleBodyCharSkipped(a, 1);
    SampleBodyCharSkipped(a, 2);
    SampleBodyCharSkipped(a, 3);
    SampleBodyCharSkipped(a, 4);
    SampleBodyCharSkipped(a, 5);
  }

  /** After the header pass, the first footer marker matches the whole last line. */
  lemma SampleFooterFound()
    ensures FirstHit(FooterPatterns, "\nBODY\n" + SampleFooter) == Some(Hit(0, Span(6, 51)))
  {
    var a := "\nBODY\n" + SampleFooter;
    assert a[..6] == "\nBODY\n";
    SampleBodySkipped(a);
    SampleFooterLine(a);
    hide SearchFrom, LongestAt;
    assert Search(FooterPatterns[0], a) == Some(Span(6, 51));
  }

  /** On a book framed by the two markers, `strip_headers` returns exactly the body. */
  lemma SampleBookCleaned()
    ensures Cleaned(SampleBook) == "BODY"
  {
    SampleHeaderFound();
    SampleFooterFound();
    hide Strip, LongestAt, Search, SearchFrom, FirstHit;
    var a := "\nBODY\n" + SampleFooter;
    assert AfterHeader(SampleBook) == a;
    assert BeforeFooter(a) == "\n" + "BODY" + "\n";
    StripSurrounded("\n", "BODY", "\n");
  }
}

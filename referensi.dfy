/** The Referensi extractor of app.py: the pattern `Referensi\s*:\s*([^\s\)\]]+)`,
    searched case-insensitively page by page, the first matching page deciding. */
module Referensi {
  import opened Wrappers
  import opened PyText

  /** The literal that opens a match; compared ignoring ASCII case. */
  const Keyword: string := "Referensi"

  /** ASCII lower-casing, the only case folding this model applies. */
  function Lower(c: char): char
  {
    if 'A' <= c <= 'Z' then (c as int + 32) as char else c
  }

  /** The keyword letters from `k` on match at `i`, ignoring case. */
  predicate KeywordFrom(s: string, i: nat, k: nat)
  {
    i + |Keyword| <= |s| && forall m :: k <= m < |Keyword| ==> Lower(s[i + m]) == Lower(Keyword[m])
  }

  /** The keyword occurs at position `i` of `s`, ignoring case. */
  predicate KeywordAt(s: string, i: nat)
  {
    KeywordFrom(s, i, 0)
  }

  /** A character the capture group `[^\s\)\]]` accepts. */
  predicate InToken(c: char)
  {
    !IsSpace(c) && c != ')' && c != ']'
  }

  /** The end of the longest run of characters satisfying `p` that starts at `k`:
      what a greedy `p*` consumes. */
  function Span(s: string, k: nat, p: char -> bool): (e: nat)
    requires k <= |s|
    ensures k <= e <= |s|
    decreases |s| - k
  {
    if k < |s| && p(s[k]) then Span(s, k + 1, p) else k
  }

  /** Every character of the span satisfies `p`, and the next one, if any, does not. */
  lemma {:induction false} SpanRun(s: string, k: nat, p: char -> bool)
    requires k <= |s|
    ensures forall m :: k <= m < Span(s, k, p) ==> p(s[m])
    ensures Span(s, k, p) == |s| || !p(s[Span(s, k, p)])
    decreases |s| - k
  {
    if k < |s| && p(s[k]) {
      SpanRun(s, k + 1, p);
    }
  }

  /** What follows the keyword, scanned from `j`: `\s*`, a `:`, `\s*`, then the
      captured run of token characters. Since neither `:` nor a token character is
      whitespace, the greedy `\s*` never has to give anything back, so this scan is
      what the backtracking matcher finds. */
  function AfterKeyword(s: string, j: nat): (r: Option<string>)
    requires j <= |s|
    ensures r.Some? ==> r.value != [] && forall k :: 0 <= k < |r.value| ==> InToken(r.value[k])
  {
    var colon := Span(s, j, IsSpace);
    if colon == |s| || s[colon] != ':' then None
    else
      var start := Span(s, colon + 1, IsSpace);
      var end := Span(s, start, InToken);
      SpanRun(s, start, InToken);
      if start == end then None else Some(s[start..end])
  }

  /** Matching from position `i` with the first `k` letters of the keyword already
      compared: the remaining letters, ignoring case, then the rest of the pattern. */
  function MatchFrom(s: string, i: nat, k: nat): (r: Option<string>)
    requires k <= |Keyword| && i + k <= |s|
    ensures r.Some? ==> r.value != [] && forall m :: 0 <= m < |r.value| ==> InToken(r.value[m])
    decreases |Keyword| - k
  {
    if k == |Keyword| then AfterKeyword(s, i + k)
    else if i + k == |s| || Lower(s[i + k]) != Lower(Keyword[k]) then None
    else MatchFrom(s, i, k + 1)
  }

  /** The capture of the pattern when matching is attempted at position `i`. */
  function MatchAt(s: string, i: nat): (r: Option<string>)
    requires i <= |s|
    ensures r.Some? ==> r.value != [] && forall k :: 0 <= k < |r.value| ==> InToken(r.value[k])
  {
    MatchFrom(s, i, 0)
  }

  /** The letter-by-letter scan succeeds exactly when the rest of the keyword is there,
      and then it is the scan of what follows the keyword. */
  lemma {:induction false} MatchFromKeyword(s: string, i: nat, k: nat)
    requires k <= |Keyword| && i + k <= |s|
    ensures MatchFrom(s, i, k) == if KeywordFrom(s, i, k) then AfterKeyword(s, i + |Keyword|) else None
    decreases |Keyword| - k
  {
    if k < |Keyword| && i + k < |s| && Lower(s[i + k]) == Lower(Keyword[k]) {
      MatchFromKeyword(s, i, k + 1);
      assert KeywordFrom(s, i, k) <==> KeywordFrom(s, i, k + 1);
    }
  }

  /** Matching at `i` is the keyword at `i` followed by the scan after it. */
  lemma MatchAtKeyword(s: string, i: nat)
    requires i <= |s|
    ensures MatchAt(s, i) == if KeywordAt(s, i) then AfterKeyword(s, i + |Keyword|) else None
  {
    MatchFromKeyword(s, i, 0);
  }

  ghost predicate AllIn(s: string, lo: nat, hi: nat, p: char -> bool)
    requires lo <= hi <= |s|
  {
    forall m :: lo <= m < hi ==> p(s[m])
  }

  /** What must follow the keyword, read declaratively with the positions of its pieces
      named: from `j`, whitespace up to the colon at `colon`, whitespace up to `start`,
      then `cap`: a non-empty run of token characters that the next character (if any)
      does not extend. */
  ghost predicate TailShape(s: string, j: nat, colon: nat, start: nat, cap: string)
  {
    && j <= colon < start <= |s|
    && AllIn(s, j, colon, IsSpace)
    && s[colon] == ':'
    && AllIn(s, colon + 1, start, IsSpace)
    && start + |cap| <= |s| && s[start..start + |cap|] == cap
    && cap != [] && (forall k :: 0 <= k < |cap| ==> InToken(cap[k]))
    && (start + |cap| == |s| || !InToken(s[start + |cap|]))
  }

  /** The whole pattern at `i`: the keyword, then the tail after it. */
  ghost predicate MatchShape(s: string, i: nat, colon: nat, start: nat, cap: string)
  {
    KeywordAt(s, i) && TailShape(s, i + |Keyword|, colon, start, cap)
  }

  /** The pattern matches at `i` with capture `cap`. */
  ghost predicate Matches(s: string, i: nat, cap: string)
  {
    exists colon, start :: MatchShape(s, i, colon, start, cap)
  }

  /** Two runs of `p` from the same place that both stop where `p` fails are the same run. */
  lemma {:induction false} SpanIsMaximalRun(s: string, k: nat, e: nat, p: char -> bool)
    requires k <= e <= |s|
    requires forall m :: k <= m < e ==> p(s[m])
    requires e == |s| || !p(s[e])
    ensures Span(s, k, p) == e
    decreases e - k
  {
    if k < e {
      SpanIsMaximalRun(s, k + 1, e, p);
    }
  }

  /** A capture found by the scan after the keyword has the declarative shape, with the
      colon and the capture's start where the scan found them. */
  lemma AfterKeywordSound(s: string, j: nat, cap: string)
    requires j <= |s| && AfterKeyword(s, j) == Some(cap)
    ensures TailShape(s, j, Span(s, j, IsSpace), Span(s, Span(s, j, IsSpace) + 1, IsSpace), cap)
  {
    var colon := Span(s, j, IsSpace);
    var start := Span(s, colon + 1, IsSpace);
    var end := Span(s, start, InToken);
    assert colon < |s| && s[colon] == ':' && start < end && cap == s[start..end];
    SpanRun(s, j, IsSpace);
    assert AllIn(s, j, colon, IsSpace);
    SpanRun(s, colon + 1, IsSpace);
    assert AllIn(s, colon + 1, start, IsSpace);
    SpanRun(s, start, InToken);
    assert end == start + |cap|;
  }

  /** Any way of reading the tail declaratively is what the scan finds. */
  lemma AfterKeywordComplete(s: string, j: nat, colon: nat, start: nat, cap: string)
    requires TailShape(s, j, colon, start, cap)
    ensures AfterKeyword(s, j) == Some(cap)
  {
    assert !IsSpace(s[colon]);
    SpanIsMaximalRun(s, j, colon, IsSpace);
    assert s[start] == cap[0];
    SpanIsMaximalRun(s, colon + 1, start, IsSpace);
    forall m | start <= m < start + |cap| ensures InToken(s[m]) {
      assert s[m] == cap[m - start];
    }
    SpanIsMaximalRun(s, start, start + |cap|, InToken);
  }

  lemma MatchAtSound(s: string, i: nat, cap: string)
    requires i <= |s| && MatchAt(s, i) == Some(cap)
    ensures Matches(s, i, cap)
  {
    MatchAtKeyword(s, i);
    var j := i + |Keyword|;
    AfterKeywordSound(s, j, cap);
    assert MatchShape(s, i, Span(s, j, IsSpace), Span(s, Span(s, j, IsSpace) + 1, IsSpace), cap);
  }

  lemma MatchAtComplete(s: string, i: nat, cap: string)
    requires i <= |s| && Matches(s, i, cap)
    ensures MatchAt(s, i) == Some(cap)
  {
    var colon: nat, start: nat :| MatchShape(s, i, colon, start, cap);
    MatchAtKeyword(s, i);
    AfterKeywordComplete(s, i + |Keyword|, colon, start, cap);
  }

  /** The scanner and the declarative reading of the pattern agree on every position. */
  lemma MatchAtIsMatch(s: string, i: nat, cap: string)
    requires i <= |s|
    ensures MatchAt(s, i) == Some(cap) <==> Matches(s, i, cap)
  {
    if MatchAt(s, i) == Some(cap) {
      MatchAtSound(s, i, cap);
    }
    if Matches(s, i, cap) {
      MatchAtComplete(s, i, cap);
    }
  }

  /** `re.search`: the capture of the leftmost position where the pattern matches. */
  function SearchFrom(s: string, i: nat): (r: Option<string>)
    requires i <= |s|
    ensures r.Some? ==> r.value != [] && forall k :: 0 <= k < |r.value| ==> InToken(r.value[k])
    decreases |s| - i
  {
    var m := MatchAt(s, i);
    if m.Some? || i == |s| then m else SearchFrom(s, i + 1)
  }

  function Search(s: string): (r: Option<string>)
    ensures r.Some? ==> r.value != [] && forall k :: 0 <= k < |r.value| ==> InToken(r.value[k])
  {
    SearchFrom(s, 0)
  }

  /** `p` is the leftmost position of `s` where the pattern matches, capturing `cap`. */
  ghost predicate LeftmostMatch(s: string, p: nat, cap: string)
  {
    p <= |s| && MatchAt(s, p) == Some(cap) && forall j :: 0 <= j < p ==> MatchAt(s, j).None?
  }

  lemma {:induction false} SearchFromWitness(s: string, i: nat) returns (p: nat)
    requires i <= |s| && SearchFrom(s, i).Some?
    ensures i <= p <= |s| && MatchAt(s, p) == SearchFrom(s, i)
    ensures forall j :: i <= j < p ==> MatchAt(s, j).None?
    decreases |s| - i
  {
    if MatchAt(s, i).Some? {
      p := i;
    } else {
      p := SearchFromWitness(s, i + 1);
    }
  }

  lemma {:induction false} SearchFromReaches(s: string, i: nat, p: nat)
    requires i <= p <= |s| && MatchAt(s, p).Some?
    requires forall j :: i <= j < p ==> MatchAt(s, j).None?
    ensures SearchFrom(s, i) == MatchAt(s, p)
    decreases p - i
  {
    if i == p {
      assert SearchFrom(s, i) == MatchAt(s, i);
    } else {
      assert MatchAt(s, i).None? && i < |s|;
      assert SearchFrom(s, i) == SearchFrom(s, i + 1);
      SearchFromReaches(s, i + 1, p);
    }
  }

  lemma {:induction false} SearchFromNone(s: string, i: nat)
    requires i <= |s|
    ensures SearchFrom(s, i).None? <==> forall j :: i <= j <= |s| ==> MatchAt(s, j).None?
    decreases |s| - i
  {
    if i < |s| {
      SearchFromNone(s, i + 1);
    }
  }

  /** The search returns exactly the capture at the leftmost matching position. */
  lemma SearchIsLeftmost(s: string, cap: string)
    ensures Search(s) == Some(cap) <==> exists p :: LeftmostMatch(s, p, cap)
  {
    if Search(s) == Some(cap) {
      var p := SearchFromWitness(s, 0);
      assert LeftmostMatch(s, p, cap);
    }
    if p :| LeftmostMatch(s, p, cap) {
      SearchFromReaches(s, 0, p);
    }
  }

  /** `p` is the leftmost position of `s` where the pattern, read declaratively, matches
      with capture `cap`: no earlier position matches with any capture. */
  ghost predicate FirstMatch(s: string, p: nat, cap: string)
  {
    p <= |s| && Matches(s, p, cap) && forall j: nat, c :: j < p ==> !Matches(s, j, c)
  }

  /** `re.search` returns exactly the capture of the leftmost declarative match. */
  lemma SearchIsFirstMatch(s: string, cap: string)
    ensures Search(s) == Some(cap) <==> exists p: nat :: FirstMatch(s, p, cap)
  {
    SearchIsLeftmost(s, cap);
    if Search(s) == Some(cap) {
      var p :| LeftmostMatch(s, p, cap);
      MatchAtIsMatch(s, p, cap);
      forall j: nat, c | j < p ensures !Matches(s, j, c) {
        MatchAtIsMatch(s, j, c);
      }
      assert FirstMatch(s, p, cap);
    }
    if p: nat :| FirstMatch(s, p, cap) {
      MatchAtIsMatch(s, p, cap);
      forall j | 0 <= j < p ensures MatchAt(s, j).None? {
        if MatchAt(s, j).Some? {
          MatchAtIsMatch(s, j, MatchAt(s, j).value);
        }
      }
      assert LeftmostMatch(s, p, cap);
    }
  }

  /** The search finds nothing exactly when no position matches. */
  lemma SearchNone(s: string)
    ensures Search(s).None? <==> forall p :: 0 <= p <= |s| ==> MatchAt(s, p).None?
  {
    SearchFromNone(s, 0);
  }

  /** A text that is just `Referensi: X`, with `X` a token, yields `X`. */
  lemma SearchPlainLine(x: string)
    requires x != [] && forall k :: 0 <= k < |x| ==> InToken(x[k])
    ensures Search(Keyword + ": " + x) == Some(x)
  {
    var s := Keyword + ": " + x;
    assert KeywordAt(s, 0) by {
      forall k | 0 <= k < |Keyword| ensures s[k] == Keyword[k] { }
    }
    assert s[9] == ':' && s[10] == ' ' && s[11] == x[0];
    SpanIsMaximalRun(s, 9, 9, IsSpace);
    SpanIsMaximalRun(s, 10, 11, IsSpace);
    forall m | 11 <= m < |s| ensures InToken(s[m]) {
      assert s[m] == x[m - 11];
    }
    SpanIsMaximalRun(s, 11, |s|, InToken);
    assert |Keyword| == 9 && Span(s, 0 + |Keyword|, IsSpace) == 9;
    assert Span(s, 9 + 1, IsSpace) == 11;
    assert s[11..|s|] == x;
    MatchAtKeyword(s, 0);
    assert MatchAt(s, 0) == Some(x);
  }

  /** What pdfplumber yields for one page: its text (`extract_text()` may give
      `None`), or an exception. */
  datatype Page = Text(text: Option<string>) | Broken

  /** What pdfplumber yields for a whole upload: an exception on opening, or its pages. */
  datatype Document = Unreadable | Pages(pages: seq<Page>)

  /** `page.extract_text() or ""` */
  function PageText(p: Page): string
    requires p.Text?
  {
    match p.text
    case Some(t) => t
    case None => ""
  }

  /** The page loop of `extract_referensi_from_bytes`: the first page whose text
      matches decides, with its capture stripped; an exception ends the scan with None. */
  function FirstReferensi(pages: seq<Page>): (r: Option<string>)
    ensures r.Some? ==> r.value != [] && forall k :: 0 <= k < |r.value| ==> InToken(r.value[k])
  {
    if pages == [] then None
    else if pages[0].Broken? then None
    else
      var m := Search(PageText(pages[0]));
      if m.Some? then Some(Strip(m.value)) else FirstReferensi(pages[1..])
  }

  /** `extract_referensi_from_bytes` applied to what pdfplumber made of the bytes. */
  function ExtractReferensi(doc: Document): (r: Option<string>)
    ensures doc.Unreadable? ==> r.None?
    ensures r.Some? ==> r.value != [] && forall k :: 0 <= k < |r.value| ==> InToken(r.value[k])
  {
    match doc
    case Unreadable => None
    case Pages(pages) => FirstReferensi(pages)
  }

  /** Page `k` is the first page that matches, every page before it was read and did not match. */
  ghost predicate FirstMatchingPage(pages: seq<Page>, k: nat, cap: string)
  {
    && k < |pages| && pages[k].Text? && Search(PageText(pages[k])) == Some(cap)
    && forall j :: 0 <= j < k ==> pages[j].Text? && Search(PageText(pages[j])).None?
  }

  lemma {:induction false} FirstReferensiWitness(pages: seq<Page>) returns (k: nat)
    requires FirstReferensi(pages).Some?
    ensures FirstMatchingPage(pages, k, FirstReferensi(pages).value)
  {
    var m := Search(PageText(pages[0]));
    if m.Some? {
      k := 0;
    } else {
      var k' := FirstReferensiWitness(pages[1..]);
      k := k' + 1;
      forall j | 0 <= j < k ensures pages[j].Text? && Search(PageText(pages[j])).None? {
        if j > 0 {
          assert pages[j] == pages[1..][j - 1];
        }
      }
    }
  }

  lemma {:induction false} FirstReferensiAt(pages: seq<Page>, k: nat, cap: string)
    requires FirstMatchingPage(pages, k, cap)
    ensures FirstReferensi(pages) == Some(cap)
  {
    if k > 0 {
      assert FirstMatchingPage(pages[1..], k - 1, cap) by {
        forall j | 0 <= j < k - 1 ensures pages[1..][j].Text? && Search(PageText(pages[1..][j])).None? {
          assert pages[1..][j] == pages[j + 1];
        }
      }
      FirstReferensiAt(pages[1..], k - 1, cap);
    }
  }

  /** First page wins: the extractor returns `cap` exactly when some page matches with
      capture `cap` and every earlier page was read and did not match. */
  lemma FirstPageWins(pages: seq<Page>, cap: string)
    ensures FirstReferensi(pages) == Some(cap) <==> exists k :: FirstMatchingPage(pages, k, cap)
  {
    if FirstReferensi(pages) == Some(cap) {
      var k := FirstReferensiWitness(pages);
    }
    if k :| FirstMatchingPage(pages, k, cap) {
      FirstReferensiAt(pages, k, cap);
    }
  }

  /** Pages after the deciding page are never looked at. */
  lemma {:induction false} LaterPagesIgnored(pages: seq<Page>, rest: seq<Page>)
    requires FirstReferensi(pages).Some?
    ensures FirstReferensi(pages + rest) == FirstReferensi(pages)
  {
    var k := FirstReferensiWitness(pages);
    var cap := FirstReferensi(pages).value;
    assert FirstMatchingPage(pages + rest, k, cap) by {
      forall j | 0 <= j <= k ensures (pages + rest)[j] == pages[j] { }
    }
    FirstReferensiAt(pages + rest, k, cap);
  }

  /** A document none of whose pages matches yields no referensi. */
  lemma {:induction false} NoMatchingPage(pages: seq<Page>)
    requires forall k :: 0 <= k < |pages| ==> pages[k].Text? && Search(PageText(pages[k])).None?
    ensures FirstReferensi(pages) == None
  {
    if pages != [] {
      assert forall k :: 0 <= k < |pages[1..]| ==> pages[1..][k] == pages[k + 1];
      NoMatchingPage(pages[1..]);
    }
  }

  /** An exception while reading page `k`, before any page matched, yields no referensi,
      whatever the later pages hold. */
  lemma {:induction false} BrokenPageStops(pages: seq<Page>, k: nat)
    requires k < |pages| && pages[k].Broken?
    requires forall j :: 0 <= j < k ==> pages[j].Text? && Search(PageText(pages[j])).None?
    ensures FirstReferensi(pages) == None
  {
    if k > 0 {
      assert forall j :: 0 <= j < |pages[1..]| ==> pages[1..][j] == pages[j + 1];
      BrokenPageStops(pages[1..], k - 1);
    }
  }

  /** A page whose text extraction gives None is read as the empty text. */
  lemma {:induction false} MissingTextIsEmpty(pages: seq<Page>, k: nat)
    requires k < |pages|
    ensures FirstReferensi(pages[k := Text(None)]) == FirstReferensi(pages[k := Text(Some(""))])
  {
    if k > 0 {
      assert pages[k := Text(None)][1..] == pages[1..][k - 1 := Text(None)];
      assert pages[k := Text(Some(""))][1..] == pages[1..][k - 1 := Text(Some(""))];
      MissingTextIsEmpty(pages[1..], k - 1);
    }
  }

  /** The `.strip()` applied to the capture never changes it. */
  lemma StripOfCaptureIsIdentity(s: string)
    requires Search(s).Some?
    ensures Strip(Search(s).value) == Search(s).value
  {
    var v := Search(s).value;
    assert InToken(v[0]) && InToken(v[|v| - 1]);
  }
}

/**
 * The page-text half of `read_pdf`: every page's extracted text is kept when
 * it is truthy (present and non-empty), in page order, and the kept texts are
 * joined with a single newline into `raw_text`.
 */
module PageText {
  import opened Wrappers

  /** `if text:` — a page's text is kept when it exists and is not empty. */
  predicate Kept(page: Option<string>)
  {
    page.Some? && page.value != []
  }

  /** The texts the loop appends to `full_text`, in page order. */
  function KeptTexts(pages: seq<Option<string>>): (r: seq<string>)
    ensures |r| <= |pages|
    ensures forall i :: 0 <= i < |r| ==> r[i] != []
  {
    if pages == [] then []
    else
      var last := pages[|pages| - 1];
      KeptTexts(pages[..|pages| - 1]) + if Kept(last) then [last.value] else []
  }

  /** How many pages have a truthy text. */
  function KeptCount(pages: seq<Option<string>>): nat
  {
    if pages == [] then 0 else (if Kept(pages[0]) then 1 else 0) + KeptCount(pages[1..])
  }

  /** The loop over the pages: append each truthy page text to `full_text`. */
  method CollectPageTexts(pages: seq<Option<string>>) returns (fullText: seq<string>)
    ensures fullText == KeptTexts(pages)
  {
    fullText := [];
    var i := 0;
    while i < |pages|
      invariant i <= |pages|
      invariant fullText == KeptTexts(pages[..i])
    {
      var text := pages[i];
      assert pages[..i + 1][..i] == pages[..i];
      if text.Some? && text.value != [] {
        fullText := fullText + [text.value];
      }
      i := i + 1;
    }
    assert pages[..i] == pages;
  }

  /** Keeping the texts of two runs of pages is keeping those of each run, one after the other. */
  lemma {:induction false} KeptTextsAppend(a: seq<Option<string>>, b: seq<Option<string>>)
    ensures KeptTexts(a + b) == KeptTexts(a) + KeptTexts(b)
  {
    if b == [] {
      assert a + b == a;
    } else {
      var init := b[..|b| - 1];
      KeptTextsAppend(a, init);
      assert (a + b)[..|a + b| - 1] == a + init;
    }
  }

  /** One text is kept per truthy page. */
  lemma {:induction false} KeptTextsCount(pages: seq<Option<string>>)
    ensures |KeptTexts(pages)| == KeptCount(pages)
  {
    if pages != [] {
      KeptTextsCount(pages[1..]);
      KeptTextsAppend([pages[0]], pages[1..]);
      assert [pages[0]] + pages[1..] == pages;
      assert [pages[0]][..0] == [];
    }
  }

  /** A page without text, or with empty text, changes nothing where it is dropped. */
  lemma SkippedPageChangesNothing(a: seq<Option<string>>, page: Option<string>, b: seq<Option<string>>)
    requires !Kept(page)
    ensures KeptTexts(a + [page] + b) == KeptTexts(a + b)
  {
    KeptTextsAppend(a + [page], b);
    KeptTextsAppend(a, [page]);
    KeptTextsAppend(a, b);
    assert [page][..0] == [];
  }

  /** `"\n".join(parts)`. */
  function Join(parts: seq<string>): string
  {
    if parts == [] then []
    else if |parts| == 1 then parts[0]
    else parts[0] + "\n" + Join(parts[1..])
  }

  /** `raw_text`. */
  function RawText(pages: seq<Option<string>>): string
  {
    Join(KeptTexts(pages))
  }

  /** Sum of the lengths of the parts. */
  function TotalLength(parts: seq<string>): nat
  {
    if parts == [] then 0 else |parts[0]| + TotalLength(parts[1..])
  }

  /** The join holds every part and exactly one separator between two neighbours. */
  lemma {:induction false} JoinLength(parts: seq<string>)
    requires parts != []
    ensures |Join(parts)| == TotalLength(parts) + |parts| - 1
  {
    if |parts| > 1 {
      JoinLength(parts[1..]);
    }
  }

  /** Joining two non-empty lists of parts puts one separator between their joins. */
  lemma {:induction false} JoinAppend(a: seq<string>, b: seq<string>)
    requires a != [] && b != []
    ensures Join(a + b) == Join(a) + "\n" + Join(b)
  {
    if |a| == 1 {
      assert (a + b)[1..] == b;
    } else {
      JoinAppend(a[1..], b);
      assert (a + b)[1..] == a[1..] + b;
    }
  }

  /** Joined non-empty parts give the empty string only when there are no parts. */
  lemma JoinEmpty(parts: seq<string>)
    requires forall i :: 0 <= i < |parts| ==> parts[i] != []
    ensures Join(parts) == [] <==> parts == []
  {
    if parts != [] {
      JoinLength(parts);
      assert TotalLength(parts) >= |parts[0]|;
    }
  }

  /** `raw_text` is empty exactly when no page has a truthy text. */
  lemma {:induction false} RawTextEmpty(pages: seq<Option<string>>)
    ensures RawText(pages) == [] <==> forall i :: 0 <= i < |pages| ==> !Kept(pages[i])
  {
    JoinEmpty(KeptTexts(pages));
    KeptTextsCount(pages);
    NoneKept(pages);
  }

  /** No page is truthy exactly when the count of truthy pages is zero. */
  lemma {:induction false} NoneKept(pages: seq<Option<string>>)
    ensures KeptCount(pages) == 0 <==> forall i :: 0 <= i < |pages| ==> !Kept(pages[i])
  {
    if pages != [] {
      NoneKept(pages[1..]);
      assert forall i :: 1 <= i < |pages| ==> pages[1..][i - 1] == pages[i];
    }
  }

  /** Index of the first newline of `s`, or `|s|`. */
  function FirstNewline(s: string): (r: nat)
    ensures r <= |s|
    ensures r < |s| ==> s[r] == '\n'
    ensures forall j :: 0 <= j < r ==> s[j] != '\n'
  {
    if s == [] || s[0] == '\n' then 0 else 1 + FirstNewline(s[1..])
  }

  /** `s.split("\n")`, the inverse of the join for parts without newlines. */
  function Split(s: string): (r: seq<string>)
    ensures r != []
    decreases |s|
  {
    var i := FirstNewline(s);
    if i == |s| then [s] else [s[..i]] + Split(s[i + 1..])
  }

  /** Splitting the joined text at its newlines gives back the parts, when no part holds a newline itself. */
  lemma {:induction false} SplitJoin(parts: seq<string>)
    requires parts != []
    requires forall i, j :: 0 <= i < |parts| && 0 <= j < |parts[i]| ==> parts[i][j] != '\n'
    ensures Split(Join(parts)) == parts
  {
    var p := parts[0];
    var s := Join(parts);
    if |parts| == 1 {
      assert FirstNewline(p) == |p|;
    } else {
      var rest := parts[1..];
      assert s == p + "\n" + Join(rest);
      assert s[|p|] == '\n';
      assert forall j :: 0 <= j < |p| ==> s[j] == p[j];
      assert FirstNewline(s) == |p|;
      assert s[..|p|] == p;
      assert s[|p| + 1..] == Join(rest);
      SplitJoin(rest);
    }
  }
}

/** The story splitter of the backend: the `/split-story` endpoint, which cuts a
    story into pages at blank lines. Whitespace is Python's (`PyWhitespace`). */
module Backend {
  import opened Text

  /** Body of a `/split-story` request. */
  datatype StoryRequest = StoryRequest(storyText: string)

  /** Body of a `/split-story` response. */
  datatype StoryResponse = StoryResponse(pages: seq<string>, totalPages: int)

  /** The comprehension `[p.strip() for p in segments if p.strip()]`: every
      segment that is not blank, stripped, in the order of `segments`. */
  function StrippedPages(segments: seq<string>, ws: set<char>): (pages: seq<string>)
    ensures |pages| <= |segments|
    ensures forall k :: 0 <= k < |pages| ==>
              pages[k] != [] && pages[k][0] !in ws && pages[k][|pages[k]| - 1] !in ws
  {
    if segments == [] then []
    else
      var page := Strip(segments[0], ws);
      (if page != [] then [page] else []) + StrippedPages(segments[1..], ws)
  }

  /** `split_story`: split on the separator, strip each segment, drop the blank
      ones, and report how many pages remain. */
  function SplitStory(request: StoryRequest): (response: StoryResponse)
    ensures response.totalPages == |response.pages|
    ensures forall k :: 0 <= k < |response.pages| ==>
              response.pages[k] != [] &&
              response.pages[k][0] !in PyWhitespace &&
              response.pages[k][|response.pages[k]| - 1] !in PyWhitespace
  {
    var pages := StrippedPages(Split(request.storyText), PyWhitespace);
    StoryResponse(pages, |pages|)
  }

  // ---------------------------------------------------------------- the comprehension

  /** The pages are exactly the segments that are not blank. */
  lemma {:induction false} StrippedPagesEmpty(segments: seq<string>, ws: set<char>)
    ensures StrippedPages(segments, ws) == [] <==>
            forall k :: 0 <= k < |segments| ==> IsBlank(segments[k], ws)
  {
    if segments != [] {
      StrippedPagesEmpty(segments[1..], ws);
      assert forall k :: 1 <= k < |segments| ==> segments[k] == segments[1..][k - 1];
    }
  }

  /** Stripping keeps segments free of the separator. */
  lemma {:induction false} StrippedPagesSepFree(segments: seq<string>, ws: set<char>)
    requires forall k :: 0 <= k < |segments| ==> SepFree(segments[k])
    ensures forall k :: 0 <= k < |StrippedPages(segments, ws)| ==> SepFree(StrippedPages(segments, ws)[k])
  {
    if segments != [] {
      StrippedPagesSepFree(segments[1..], ws);
      StripSepFree(segments[0], ws);
    }
  }

  /** Pages that are already stripped and non-empty pass through unchanged. */
  lemma {:induction false} StrippedPagesFixed(pages: seq<string>, ws: set<char>)
    requires forall k :: 0 <= k < |pages| ==>
               pages[k] != [] && pages[k][0] !in ws && pages[k][|pages[k]| - 1] !in ws
    ensures StrippedPages(pages, ws) == pages
  {
    if pages != [] {
      StrippedPagesFixed(pages[1..], ws);
      StripFixed(pages[0], ws);
      assert [pages[0]] + pages[1..] == pages;
    }
  }

  /** The pages are the segments kept by the filter `p.strip()` (see `NonBlank`),
      each stripped, in the same order. */
  lemma {:induction false} StrippedPagesOfNonBlank(segments: seq<string>, ws: set<char>)
    ensures StrippedPages(segments, ws) == StripEach(NonBlank(segments, ws), ws)
  {
    if segments != [] {
      StrippedPagesOfNonBlank(segments[1..], ws);
      var kept := NonBlank(segments, ws);
      if Strip(segments[0], ws) != [] {
        assert kept[0] == segments[0] && kept[1..] == NonBlank(segments[1..], ws);
        assert StripEach(kept, ws) == [Strip(segments[0], ws)] + StripEach(NonBlank(segments[1..], ws), ws);
      } else {
        assert kept == NonBlank(segments[1..], ws);
        assert StrippedPages(segments, ws) == StrippedPages(segments[1..], ws);
      }
    }
  }

  /** Every element of `parts`, stripped. */
  function StripEach(parts: seq<string>, ws: set<char>): (r: seq<string>)
    ensures |r| == |parts|
    ensures forall k :: 0 <= k < |r| ==> r[k] == Strip(parts[k], ws)
  {
    if parts == [] then [] else [Strip(parts[0], ws)] + StripEach(parts[1..], ws)
  }

  // ---------------------------------------------------------------- split_story

  /** No page contains the separator. */
  lemma PagesSepFree(request: StoryRequest)
    ensures forall k :: 0 <= k < |SplitStory(request).pages| ==> SepFree(SplitStory(request).pages[k])
  {
    SplitPartsSepFree(request.storyText);
    StrippedPagesSepFree(Split(request.storyText), PyWhitespace);
  }

  /** There are at most as many pages as separators plus one. */
  lemma PageCountBound(request: StoryRequest)
    ensures SplitStory(request).totalPages <= Count(request.storyText) + 1
  {
    SplitLength(request.storyText);
  }

  /** A story with no pages is exactly a story made only of whitespace
      (the empty story included). */
  lemma NoPagesIffBlank(request: StoryRequest)
    ensures SplitStory(request).pages == [] <==> IsBlank(request.storyText, PyWhitespace)
  {
    var segments := Split(request.storyText);
    StrippedPagesEmpty(segments, PyWhitespace);
    JoinBlank(segments, PyWhitespace);
    JoinSplit(request.storyText);
  }

  /** Joining the pages with the separator and splitting again gives the same pages. */
  lemma ResplitPages(request: StoryRequest)
    ensures SplitStory(StoryRequest(Join(SplitStory(request).pages))).pages == SplitStory(request).pages
  {
    var pages := SplitStory(request).pages;
    if pages == [] {
      assert Split(Join(pages)) == [""];
    } else {
      PagesSepFree(request);
      SplitJoin(pages);
      StrippedPagesFixed(pages, PyWhitespace);
    }
  }

  /** A non-empty page with no line feed and no surrounding Python whitespace. */
  predicate PlainPage(p: string)
  {
    p != [] && '\n' !in p && p[0] !in PyWhitespace && p[|p| - 1] !in PyWhitespace
  }

  /** Plain pages come back unchanged from splitting their join. */
  lemma SplitStoryOfJoin(pages: seq<string>)
    requires forall k :: 0 <= k < |pages| ==> PlainPage(pages[k])
    ensures SplitStory(StoryRequest(Join(pages))).pages == pages
  {
    if pages == [] {
      assert Split(Join(pages)) == [""];
    } else {
      forall k | 0 <= k < |pages|
        ensures SepFree(pages[k]) && pages[k][|pages[k]| - 1] != '\n'
      {
        NoNewlineSepFree(pages[k]);
        assert pages[k][|pages[k]| - 1] in pages[k];
      }
      SplitJoin(pages);
      StrippedPagesFixed(pages, PyWhitespace);
    }
  }

  /** The example story of the API documentation (the `StoryRequest` schema example),
      written as its three sentences joined by a blank line. */
  const DocumentedStory: string :=
    "Once upon a time, there was a brave knight." + "\n\n" + "He went on an adventure." + "\n\n" + "The end."

  /** Its three sentences. */
  const DocumentedPages: seq<string> :=
    ["Once upon a time, there was a brave knight.", "He went on an adventure.", "The end."]

  lemma PlainSentence(p: string)
    requires p == "Once upon a time, there was a brave knight." || p == "He went on an adventure." || p == "The end."
    ensures PlainPage(p)
  {
    PrintableNotWs('O');
    PrintableNotWs('H');
    PrintableNotWs('T');
    PrintableNotWs('.');
  }

  lemma DocumentedPagesPlain()
    ensures forall k :: 0 <= k < |DocumentedPages| ==> PlainPage(DocumentedPages[k])
  {
    PlainSentence(DocumentedPages[0]);
    PlainSentence(DocumentedPages[1]);
    PlainSentence(DocumentedPages[2]);
  }

  lemma DocumentedStoryJoin()
    ensures Join(DocumentedPages) == DocumentedStory
  {
    JoinOfThree(DocumentedPages[0], DocumentedPages[1], DocumentedPages[2]);
    assert DocumentedPages == [DocumentedPages[0], DocumentedPages[1], DocumentedPages[2]];
  }

  lemma JoinOfThree(a: string, b: string, c: string)
    ensures Join([a, b, c]) == a + Sep + b + Sep + c
  {
    assert [a, b, c][1..] == [b, c] && [b, c][1..] == [c];
    assert Join([b, c]) == b + Sep + c;
  }

  /** The example request of the API documentation splits into its three sentences. */
  lemma DocumentedExample()
    ensures SplitStory(StoryRequest(DocumentedStory)) == StoryResponse(DocumentedPages, 3)
  {
    DocumentedPagesPlain();
    DocumentedStoryJoin();
    SplitStoryOfJoin(DocumentedPages);
  }
}

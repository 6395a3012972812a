/** The checks the browser form makes before it sends a story to the backend
    (`generateStorybook` in frontend/script.js, up to the request). Whitespace is
    JavaScript's (`JsWhitespace`). */
module Validation {
  import opened Text
  import Decimal
  import Backend

  /** Title used when the title field is left blank. */
  const DefaultTitle: string := "My Storybook"

  /** Largest number of pages the form lets through. */
  const MaxPages: nat := 15

  const EmptyStoryMessage: string := "Please write a story first!"
  const NoPagesMessage: string := "Please separate your story into pages using blank lines!"

  function TooManyPagesMessage(count: nat): string
  {
    "Your story has " + Decimal.NatToString(count) + " pages. Maximum is 15 pages. Try making your paragraphs longer!"
  }

  /** Outcome of pressing the generate button: an alert and nothing sent, or the
      title and story text that go into the request, with the page count the
      progress display starts from. */
  datatype Submission =
    | Reject(message: string)
    | Accept(title: string, storyText: string, pageCount: nat)

  lemma DefaultTitleStripped()
    ensures DefaultTitle != [] && Strip(DefaultTitle, JsWhitespace) == DefaultTitle
  {
    PrintableNotWs('M');
    PrintableNotWs('k');
    assert DefaultTitle[0] == 'M' && DefaultTitle[|DefaultTitle| - 1] == 'k';
    StripFixed(DefaultTitle, JsWhitespace);
  }

  /** `storyTitleInput.value.trim() || 'My Storybook'`. */
  function StoryTitle(titleInput: string): (title: string)
    ensures title != [] && Strip(title, JsWhitespace) == title
    ensures IsBlank(titleInput, JsWhitespace) ==> title == DefaultTitle
    ensures !IsBlank(titleInput, JsWhitespace) ==> title == Strip(titleInput, JsWhitespace)
  {
    var trimmed := Strip(titleInput, JsWhitespace);
    StripIdempotent(titleInput, JsWhitespace);
    DefaultTitleStripped();
    if trimmed != [] then trimmed else DefaultTitle
  }

  /** `storyText.split('\n\n').filter(p => p.trim()).length`. */
  function PageCount(storyText: string): nat
  {
    |NonBlank(Split(storyText), JsWhitespace)|
  }

  /** The validation part of `generateStorybook`. */
  function Validate(titleInput: string, storyInput: string): (s: Submission)
    ensures s.Accept? ==>
              s.title == StoryTitle(titleInput) &&
              s.storyText == Strip(storyInput, JsWhitespace) &&
              s.pageCount == PageCount(s.storyText) &&
              1 <= s.pageCount <= MaxPages
  {
    var title := StoryTitle(titleInput);
    var storyText := Strip(storyInput, JsWhitespace);
    if storyText == [] then Reject(EmptyStoryMessage)
    else
      var count := PageCount(storyText);
      if count == 0 then Reject(NoPagesMessage)
      else if count > MaxPages then Reject(TooManyPagesMessage(count))
      else Accept(title, storyText, count)
  }

  // ---------------------------------------------------------------- lemmas

  /** A text with something other than whitespace has at least one page, whatever
      the whitespace set, as long as the line feed belongs to it. */
  lemma NonBlankHasPage(text: string, ws: set<char>)
    requires '\n' in ws
    requires !IsBlank(text, ws)
    ensures |NonBlank(Split(text), ws)| >= 1
  {
    NonBlankEmpty(Split(text), ws);
    JoinBlank(Split(text), ws);
    JoinSplit(text);
  }

  /** A story that is empty once trimmed is rejected with the empty-story alert, and
      only such a story. */
  lemma EmptyStoryRejected(titleInput: string, storyInput: string)
    ensures Validate(titleInput, storyInput) == Reject(EmptyStoryMessage) <==>
            IsBlank(storyInput, JsWhitespace)
  {
    if !IsBlank(storyInput, JsWhitespace) {
      var n := PageCount(Strip(storyInput, JsWhitespace));
      assert TooManyPagesMessage(n)[0] == 'Y';
    }
  }

  /** The "separate your story into pages" alert can never be shown: a story that
      survives the emptiness check always has a page. */
  lemma NoPagesAlertUnreachable(titleInput: string, storyInput: string)
    ensures Validate(titleInput, storyInput) != Reject(NoPagesMessage)
  {
    var storyText := Strip(storyInput, JsWhitespace);
    if storyText != [] {
      WhitespaceDifference();
      NonBlankHasPage(storyText, JsWhitespace);
      var n := PageCount(storyText);
      assert TooManyPagesMessage(n)[0] == 'Y';
    }
  }

  /** A story that is not blank is accepted exactly when it has at most 15 pages, and
      otherwise rejected with the page count in the alert. */
  lemma PageLimit(titleInput: string, storyInput: string)
    requires !IsBlank(storyInput, JsWhitespace)
    ensures var n := PageCount(Strip(storyInput, JsWhitespace));
            n >= 1 &&
            (n <= MaxPages ==> Validate(titleInput, storyInput) ==
                                 Accept(StoryTitle(titleInput), Strip(storyInput, JsWhitespace), n)) &&
            (n > MaxPages ==> Validate(titleInput, storyInput) == Reject(TooManyPagesMessage(n)))
  {
    WhitespaceDifference();
    var storyText := Strip(storyInput, JsWhitespace);
    NonBlankHasPage(storyText, JsWhitespace);
  }

  /** Two whitespace sets that agree on every character of the parts keep the same parts. */
  lemma {:induction false} NonBlankAgrees(parts: seq<string>, ws1: set<char>, ws2: set<char>)
    requires forall k, c :: 0 <= k < |parts| && c in parts[k] ==> (c in ws1 <==> c in ws2)
    ensures NonBlank(parts, ws1) == NonBlank(parts, ws2)
  {
    if parts != [] {
      BlankAgrees(parts[0], ws1, ws2);
      NonBlankAgrees(parts[1..], ws1, ws2);
    }
  }

  /** On a text in which Python and JavaScript agree about every character's
      whitespace-ness, the form counts as many pages as `split_story` returns. */
  lemma CountMatchesBackend(storyText: string)
    requires forall c :: c in storyText ==> (c in PyWhitespace <==> c in JsWhitespace)
    ensures PageCount(storyText) == Backend.SplitStory(Backend.StoryRequest(storyText)).totalPages
  {
    var parts := Split(storyText);
    forall k, c | 0 <= k < |parts| && c in parts[k] ensures c in PyWhitespace <==> c in JsWhitespace {
      var i :| 0 <= i < |parts[k]| && parts[k][i] == c;
      SplitContains(storyText, k, i);
    }
    NonBlankAgrees(parts, JsWhitespace, PyWhitespace);
    Backend.StrippedPagesOfNonBlank(parts, PyWhitespace);
  }

  /** For every accepted story whose trimmed text Python and JavaScript classify
      alike, character by character, the page count the form shows is the
      `total_pages` the backend computes for the text the form sends. */
  lemma AcceptedCountMatchesBackend(titleInput: string, storyInput: string)
    requires forall c :: c in Strip(storyInput, JsWhitespace) ==> (c in PyWhitespace <==> c in JsWhitespace)
    requires Validate(titleInput, storyInput).Accept?
    ensures var s := Validate(titleInput, storyInput);
            s.pageCount == Backend.SplitStory(Backend.StoryRequest(s.storyText)).totalPages
  {
    CountMatchesBackend(Strip(storyInput, JsWhitespace));
  }

  /** Without that condition the two can differ: U+001C is whitespace to Python only,
      so the form counts two pages where the backend returns one. */
  lemma CountDiffersOnSeparatorCharacter()
    ensures Validate("", "a\n\n\U{1C}") == Accept(DefaultTitle, "a\n\n\U{1C}", 2)
    ensures Backend.SplitStory(Backend.StoryRequest("a\n\n\U{1C}")).totalPages == 1
  {
    UnitSeparatorSplit();
    UnitSeparatorFrontend();
    UnitSeparatorBackend();
  }

  lemma UnitSeparatorSplit()
    ensures Split("a\n\n\U{1C}") == ["a", "\U{1C}"]
  {
    var parts := ["a", "\U{1C}"];
    assert Join(parts) == "a\n\n\U{1C}";
    assert SepFree(parts[0]) && SepFree(parts[1]);
    SplitJoin(parts);
  }

  lemma UnitSeparatorFrontend()
    ensures Strip("a\n\n\U{1C}", JsWhitespace) == "a\n\n\U{1C}"
    ensures NonBlank(["a", "\U{1C}"], JsWhitespace) == ["a", "\U{1C}"]
  {
    var text := "a\n\n\U{1C}";
    PrintableNotWs('a');
    assert '\U{1C}' !in JsWhitespace;
    StripFixed(text, JsWhitespace);
    var parts := ["a", "\U{1C}"];
    assert !IsBlank(parts[0], JsWhitespace) && !IsBlank(parts[1], JsWhitespace);
  }

  lemma UnitSeparatorBackend()
    ensures Backend.StrippedPages(["a", "\U{1C}"], PyWhitespace) == ["a"]
  {
    var parts := ["a", "\U{1C}"];
    PrintableNotWs('a');
    assert '\U{1C}' in PyWhitespace && parts[0][0] == 'a';
    assert !IsBlank(parts[0], PyWhitespace) && IsBlank(parts[1], PyWhitespace);
    StripFixed(parts[0], PyWhitespace);
  }
}

# Storybook Illustrator: page splitting and form validation, in Dafny

Storybook Illustrator takes a story typed into a browser form, cuts it into pages at
blank lines, and has the backend draw one illustration per page. This project models
the parts of it that are logic rather than HTTP or DOM glue:

- **the backend splitter** `split_story` (`/split-story`). It splits the story text at
  every `"\n\n"`, strips each segment, drops blank segments, and returns the pages with
  their count. The model is in module `Backend`, built on module `Text`.
- **the form validation** at the start of `generateStorybook` (module `Validation`).
  It defaults the title, rejects an empty story, counts the non-blank `"\n\n"` segments
  of the trimmed text and rejects more than 15 pages. It yields either an alert message,
  or the title and trimmed story text that go into the request together with the page
  count the progress display starts from.
- **the per-page render choice** of `createPageElement` (module `PageView`). The
  sentinel file name `"error"` gives a textual placeholder. Any other value gives one
  image whose URL is `http://localhost:8000/images/<file name>`.
- **section visibility** `showSection` and its use in `resetToForm` (module `Sections`).
  This is a class with the three `hidden` flags. The method hides all three and then
  shows at most one.

Module `Text` holds `split`, `join`, `count` and `strip`/`trim` with the semantics
Python and JavaScript share: a literal separator, leftmost and non-overlapping matches,
and at least one part. Python's `str.strip()` and JavaScript's `trim()` disagree on
which characters are whitespace. Every trimming function therefore takes the whitespace
set as a parameter, and `PyWhitespace`/`JsWhitespace` give the two sets:
- Python alone strips U+001C–U+001F and U+0085;
- JavaScript alone strips U+FEFF.

Because of this, the form's page count equals the backend's `total_pages` whenever the
text contains none of those six characters (`Validation.CountMatchesBackend`). The story
`"a\n\n\u001c"`, whose last paragraph is a lone U+001C, counts two pages in the form
and one in the backend (`Validation.CountDiffersOnSeparatorCharacter`).

Behaviour of the source worth knowing:
- The split is on the literal two-character `"\n\n"`. A third newline starts the next
  segment and is then stripped away. Windows line breaks `"\r\n\r\n"` are not a
  separator.
- The backend does not reject empty stories or stories over 15 pages; only the form does.
- The form never shows its "no pages" alert: any non-blank trimmed story has a page.
- The progress display (`updateProgress`) has no guard against a total of zero.

## Model

| member | source | states |
|---|---|---|
| `Text.Split` | backend/main.py:155 | `str.split` with a separator always returns at least one part |
| `Text.SplitLength` | backend/main.py:155 | the number of parts is the number of non-overlapping `"\n\n"` occurrences (`str.count`) plus one |
| `Text.JoinSplit` | backend/main.py:155 | joining the parts with `"\n\n"` gives back the input, so nothing is lost or reordered |
| `Text.SplitPartsSepFree` | backend/main.py:155 | no part contains `"\n\n"` |
| `Text.SplitPartsNoTrailingNewline` | backend/main.py:155 | cuts are made at the leftmost separator: every part but the last is empty or does not end in a line feed |
| `Text.SplitJoin` | backend/main.py:155 | parts without `"\n\n"` that do not end in a line feed come back unchanged from splitting their join |
| `Text.Strip` | backend/main.py:158 | the stripped text is empty exactly when the input is all whitespace, and otherwise starts and ends with non-whitespace |
| `Text.StripSlice` | backend/main.py:158 | stripping removes only whitespace, and only from the two ends |
| `Text.StripIdempotent` | backend/main.py:158 | stripping twice equals stripping once |
| `Text.JoinBlank` | backend/main.py:158 | a join is all whitespace if and only if every part is |
| `Text.WhitespaceDifference` | backend/main.py:158 | Python's and JavaScript's whitespace sets differ in exactly U+001C–U+001F, U+0085 (Python) and U+FEFF (JavaScript); both contain the line feed |
| `Text.NonBlank` | frontend/script.js:42 | `filter(p => p.trim())` keeps only non-blank parts and never grows the list |
| `Text.NonBlankMembers` | frontend/script.js:42 | a part is kept if and only if it occurs in the input and is not blank |
| `Text.NonBlankAppend` | frontend/script.js:42 | filtering a concatenation is the concatenation of the filtered pieces, so the kept parts stay in input order |
| `Text.NonBlankSingleton` | frontend/script.js:42 | a single part is kept exactly when it is not blank; with `NonBlankAppend` this fixes the filter's result on every list |
| `Text.NonBlankKeptAt` | frontend/script.js:42 | a non-blank `parts[k]` is kept, at the position right after everything kept from `parts[..k]` |
| `Text.NonBlankEmpty` | frontend/script.js:42 | the filter keeps nothing if and only if every part is blank |
| `Backend.StrippedPages` | backend/main.py:158 | the comprehension yields at most one page per segment, each non-empty and without whitespace at either end |
| `Backend.StrippedPagesEmpty` | backend/main.py:158 | the comprehension yields nothing if and only if every segment is blank |
| `Backend.StrippedPagesOfNonBlank` | backend/main.py:158 | the pages are exactly the non-blank segments, in order, each stripped |
| `Backend.StripEach` | backend/main.py:158 | the `p.strip()` of the comprehension: one result per element, the k-th being the k-th element stripped |
| `Backend.StrippedPagesFixed` | backend/main.py:158 | already stripped non-empty pages pass through unchanged |
| `Backend.SplitStory` | backend/main.py:147-163 | `total_pages` equals the number of pages; every page is non-empty and neither begins nor ends with whitespace |
| `Backend.PagesSepFree` | backend/main.py:155-158 | no returned page contains `"\n\n"` |
| `Backend.PageCountBound` | backend/main.py:155-163 | `total_pages` is at most the number of `"\n\n"` occurrences plus one |
| `Backend.NoPagesIffBlank` | backend/main.py:155-158 | zero pages if and only if the story is all whitespace (the empty story included) |
| `Backend.ResplitPages` | backend/main.py:155-158 | splitting the returned pages joined with `"\n\n"` returns the same pages |
| `Backend.SplitStoryOfJoin` | backend/main.py:155-158 | non-empty pages without line feeds or surrounding whitespace are returned unchanged from their join |
| `Backend.DocumentedExample` | backend/main.py:136 | the documented example story yields its three sentences in order, `total_pages` 3 |
| `Validation.StoryTitle` | frontend/script.js:32 | the title is the trimmed title when that is non-empty, else `'My Storybook'`; it is never empty and already trimmed |
| `Validation.Validate` | frontend/script.js:32-51 | an accepted submission carries the defaulted title, the trimmed story and its non-blank segment count, which lies in 1..15 |
| `Validation.EmptyStoryRejected` | frontend/script.js:33-39 | the empty-story alert is given if and only if the story is all whitespace |
| `Validation.NoPagesAlertUnreachable` | frontend/script.js:43-46 | the "separate your story into pages" alert can never be given |
| `Validation.NonBlankHasPage` | frontend/script.js:42 | a text that is not all whitespace has at least one non-blank segment |
| `Validation.PageLimit` | frontend/script.js:42-51 | a non-blank story is accepted with its count when the count is at most 15 (15 included), and rejected with the count in the alert when above |
| `Validation.NonBlankAgrees` | frontend/script.js:42 | two whitespace sets that agree on every character keep the same segments |
| `Validation.CountMatchesBackend` | frontend/script.js:42 | on text whose characters Python and JavaScript classify alike, the form's page count equals `split_story`'s `total_pages` |
| `Validation.AcceptedCountMatchesBackend` | frontend/script.js:42-68 | for an accepted story whose trimmed text Python and JavaScript classify alike character by character, the count the form uses equals `total_pages` for the text it sends |
| `Validation.CountDiffersOnSeparatorCharacter` | frontend/script.js:42 | without that condition the counts can differ: `"a\n\n\u001c"` is 2 pages in the form and 1 in the backend |
| `Decimal.NatToString` | frontend/script.js:49 | the page count in the alert is rendered as non-empty decimal digits without a leading zero |
| `Decimal.ValueOfNatToString` | frontend/script.js:49 | the rendered digits denote the count |
| `PageView.FilenameOf` | frontend/script.js:141 | a URL has a file name exactly when it starts with `API_BASE_URL + "/images/"`, and rebuilding the URL from that name gives the URL back |
| `PageView.FilenameOfImageSource` | frontend/script.js:141 | the file name is recovered from the image URL, so distinct files get distinct URLs |
| `PageView.CreatePageElement` | frontend/script.js:137-164 | a placeholder appears if and only if `image_filename` is `"error"`; otherwise there is one image, its URL points at that file name and its alt text names the page number |
| `Sections.SectionNamed` | frontend/script.js:182-188 | only `'progress'`, `'results'` and `'error'` select a section, each its own |
| `Sections.Panels.ShowSection` | frontend/script.js:175-189 | afterwards exactly the named section is visible, or none for any other name |
| `Sections.Panels.ResetToForm` | frontend/script.js:198 | afterwards all three sections are hidden |

`Validation.PageCount` (frontend/script.js:42), `Validation.TooManyPagesMessage`
(frontend/script.js:49), `PageView.ImageSource` (frontend/script.js:141) and
`PageView.Interpolated` (frontend/script.js:141) have no rows of their own: they are
the helpers of `Validation.Validate`, `Validation.PageLimit`,
`PageView.CreatePageElement` and `PageView.FilenameOf`, whose rows state what they
compute.

## Left out

- `generate_image` (backend/main.py:16-96): an HTTP call to an image model, image decoding and a file write, all foreign. Its second half (63-96) is unreachable.
- The other backend endpoints (`home`, `health_check`, `test_image_generation`) and environment loading: I/O only.
- The request itself and what follows validation in `generateStorybook` (frontend/script.js:53-87): `fetch`, JSON decoding, `async`/`await`, button disabling, `alert`, `console.error`. `Validation.Validate` yields the alert text or the request fields instead.
- `updateProgress` (frontend/script.js:90-95): floating-point rounding of a division. It is only ever called with a total of at least 1, which `Validation.Validate` guarantees.
- `displayResults`, `showError`, `clearForm` and the rest of `resetToForm`: DOM building, scrolling and focus. The image `onload`/`onerror` handlers are browser behaviour.
- `PageView.CreatePageElement`: `page_number` is modelled as a natural number and the two file fields as strings that may be missing. Other JSON values the backend might send are not modelled.
- `Sections.Panels.constructor`: the initial `hidden` flags come from the HTML page, which is not part of this model, so they are parameters.
- The `/generate-storybook` endpoint the form calls is not part of this model. The form's count is related to `/split-story`, the backend's own splitter.

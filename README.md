# Blog client logic in Dafny

This project models the three pieces of client-side logic in the blog's
components that compute something, and proves properties of each model.

- **Table of contents** (`TableOfContents.tsx`):
  - the slug that becomes a heading's id when the heading has none;
  - the scan that assigns those ids and collects one item per heading up to `maxLevel`;
  - the headings the intersection observer watches, and the rule that the last intersecting entry sets the active section;
  - the progress percentage, and the indent and numbering helpers;
  - the sticky and collapsed flags;
  - the defaults of the props.

  The reactive state is the class `TocWidget.TableOfContents`. It has one method per event. The page is a `Document` whose headings the scan rewrites in place. The pure parts are functions in the modules `Slug` and `Toc`.
- **Pagination bar** (`Pagination.tsx`): the window of page numbers and `'...'` placeholders, the Previous/Next links and their disabled flags, and each page link with its highlight. Everything here is a pure function, in module `Pagination`.
- **Tag filter** (`BlogFilter.tsx`): the posts shown for the chosen tag, where `'all'` means every post. It also covers the chosen-tag state and its click handler, which button is lit, and when the "No posts found" message appears. This is module `BlogFilter`, with the state in class `BlogFilter.TagFilter`.

Module `Wrappers` holds the `Option` type for values that may be absent: props, `textContent` and a post's `tags`. Module `Decimal` prints and parses whole numbers the way a template literal `${n}` prints them.

Modelling choices:

- **A heading's id.** A heading has an id exactly when its `id` attribute is non-empty, because JavaScript treats `""` as false.
- **Levels.** A heading level is the digit of its `h1`..`h6` tag.
- **Browser events as inputs.** Intersection entries are a pair: the target's id, and whether it now intersects. The scroll handler gets the top of the widget's bounding box as a real number, so a top of 20.5 is not sticky.
- **When the widget is rendered.** The outer `div` always renders. The `nav` inside it, which holds the reference the scroll handler reads, exists exactly when there is at least one item. So `HandleScroll` changes nothing before then, and the collapse button, which sits inside the `nav`, exists only then.
- **Rounding.** `Math.round` is exact round-half-up on rationals.
- **Character classes.** The slug model is restricted to ASCII. On ASCII characters, `\w` is `[A-Za-z0-9_]` and `\s` is tab through carriage return, plus space. The model treats every other character as neither, so the slug deletes it. JavaScript's `\s` also matches some non-ASCII spaces; see "## Left out".

## Model

| member | source | states |
|---|---|---|
| Decimal.IntToString | src/components/Pagination.tsx:56 | `${n}` of a whole number: digits only for n >= 0, a `-` then digits for n < 0, with no leading zero |
| Decimal.IntToStringInjective | src/components/Pagination.tsx:56 | Two whole numbers that print the same are equal, so every page number prints as its own text |
| Decimal.IntToStringRoundTrip | src/components/TableOfContents.tsx:142 | Parsing the printed form of any integer gives that integer back |
| Slug.ToLower | src/components/TableOfContents.tsx:62 | Lower-casing keeps the length and maps each character on its own, A-Z to a-z |
| Slug.StripDisallowed | src/components/TableOfContents.tsx:63 | Deleting characters never lengthens the text; `StripKeepsOnlyKept` states what survives |
| Slug.StripKeepsOnlyKept | src/components/TableOfContents.tsx:63 | After deletion only word characters, whitespace and `-` remain |
| Slug.StripIsSubset | src/components/TableOfContents.tsx:62-63 | Characters that survive deletion of lowered text are allowed and not upper-case |
| Slug.CollapseOutput | src/components/TableOfContents.tsx:64 | Collapsing leaves no whitespace at all, and brings in no character except `-` |
| Slug.CollapseSpaces | src/components/TableOfContents.tsx:64 | Collapsing never lengthens the text; `CollapseOutput`, `CollapseRun` and `CollapseWords` state how runs become `-` |
| Slug.DropSpacesIsSuffix | src/components/TableOfContents.tsx:64 | Skipping a whitespace run leaves a suffix of the input, which starts with no whitespace |
| Slug.CollapseRun | src/components/TableOfContents.tsx:64 | A non-empty whitespace run followed by a non-space becomes exactly one `-` |
| Slug.CollapseWords | src/components/TableOfContents.tsx:64 | A space-free word, a whitespace run and the rest collapse to the word, `-`, and the collapsed rest |
| Slug.Slugify | src/components/TableOfContents.tsx:61-64 | The slug is lower-casing, deletion, then run collapsing, and is never longer than the text. `SlugChars` and `SlugIdempotent` state its properties |
| Slug.DerivedId | src/components/TableOfContents.tsx:61-64 | The id given to an id-less heading: `""` for null text, otherwise no longer than the text, and made only of `[a-z0-9_-]` |
| Slug.SlugChars | src/components/TableOfContents.tsx:61-64 | Every derived id consists only of `[a-z0-9_-]`: no upper case and no whitespace |
| Slug.SlugOfSlugChars | src/components/TableOfContents.tsx:61-64 | A string made only of `[a-z0-9_-]` is its own derived id |
| Slug.SlugIdempotent | src/components/TableOfContents.tsx:61-64 | Deriving an id from a derived id returns it unchanged |
| SlugExamples.ExampleSectionResults | src/components/TableOfContents.tsx:61-64 | `"Section 2: Results!"` derives `"section-2-results"` |
| SlugExamples.ExampleHyphens | src/components/TableOfContents.tsx:63-64 | `"a - b"` derives `"a---b"`: each space run is one `-` and the existing hyphen stays |
| SlugExamples.ExampleEmpty | src/components/TableOfContents.tsx:61-64 | Null or empty text content derives the empty id |
| Toc.EffectiveMaxLevel | src/components/TableOfContents.tsx:24 | `maxLevel` is 3 when the prop is absent or 0, and the prop's value otherwise |
| Toc.EffectiveTitle | src/components/TableOfContents.tsx:27 | The title is "Table of Contents" when the prop is absent or empty, and the prop otherwise; it is never empty |
| Toc.WithId | src/components/TableOfContents.tsx:58-65 | One heading after the scan: level and text unchanged. A heading with an id, or deeper than `maxLevel`, is untouched; otherwise it gets the derived id |
| Toc.AssignIds | src/components/TableOfContents.tsx:56-65 | The document after the scan, the same length: level and text of every heading kept. Headings with an id or deeper than `maxLevel` untouched, every other heading given its derived id |
| Toc.QualifyingIndices | src/components/TableOfContents.tsx:56-58 | The positions of the headings with `level <= maxLevel`, each once, increasing, and no other |
| Toc.TocSpec | src/components/TableOfContents.tsx:56-73 | The items are no more than the headings, all of level at most `maxLevel`. `TocMirrorsHeadings` states exactly which |
| Toc.TocMirrorsHeadings | src/components/TableOfContents.tsx:56-73 | Item k comes from the k-th qualifying heading: its level, its text (or `""`), its own id if it had one, otherwise the derived id |
| Toc.TocCount | src/components/TableOfContents.tsx:56-73 | The item count is the number of qualifying headings; all qualifying gives one item per heading, none gives no items |
| Toc.ObservedIds | src/components/TableOfContents.tsx:95-99 | An id is observed exactly when some heading of any level carries it as a non-empty id |
| Toc.TocItemsObserved | src/components/TableOfContents.tsx:32-37 | Each item with a non-empty id is observed once the scan has run |
| Toc.DeepHeadingObservedNotListed | src/components/TableOfContents.tsx:95-99 | A heading deeper than `maxLevel` whose id no listed heading shares is observed but matches no item |
| Toc.ActiveAfter | src/components/TableOfContents.tsx:82-88 | After a batch the active id is the old one or the target of some intersecting entry |
| Toc.ActiveUnchangedWithoutIntersection | src/components/TableOfContents.tsx:82-88 | A batch in which no entry intersects leaves the active id as it was |
| Toc.LastIntersectingWins | src/components/TableOfContents.tsx:82-88 | After a batch, the active id is the target of the last intersecting entry |
| Toc.ActiveComesFromBatch | src/components/TableOfContents.tsx:82-88 | The new active id is the old one or an intersecting entry's target, and it is such a target whenever one intersects |
| Toc.FindIndex | src/components/TableOfContents.tsx:252 | -1 exactly when no item has the active id; otherwise the first position whose item has it |
| Toc.RoundHalfUp | src/components/TableOfContents.tsx:252 | The result is the nearest whole number to num/den, with halves rounded up |
| Toc.Progress | src/components/TableOfContents.tsx:252 | The progress figure lies in 0..100 and is 0 when no item is active |
| Toc.ProgressMonotone | src/components/TableOfContents.tsx:252 | Progress never falls as the matched index grows |
| Toc.ProgressAtLastItem | src/components/TableOfContents.tsx:252 | When the last item is the first match, progress is 100 |
| Toc.ProgressExample | src/components/TableOfContents.tsx:252 | Five items with the third active gives 60 |
| Toc.ProgressZeroWithMatch | src/components/TableOfContents.tsx:252 | A match can still read 0: 201 items with the first active round to 0 |
| Toc.IndentClass | src/components/TableOfContents.tsx:126-136 | Levels 1..6 get `pl-0`, `pl-4`, ..., `pl-20` (four units per level), and any other level gets `pl-0` |
| Toc.Numbering | src/components/TableOfContents.tsx:138-143 | `""` with numbers off; otherwise the decimal `index + 1` followed by `.`, whatever the level, which parses back to `index + 1` |
| Toc.NumberingDistinct | src/components/TableOfContents.tsx:138-143 | Distinct positions get distinct labels |
| TocWidget.TableOfContents.constructor | src/components/TableOfContents.tsx:19-27 | The initial state has no items, no active id, and is expanded and not sticky; props are resolved to their defaults |
| TocWidget.TableOfContents.Rendered | src/components/TableOfContents.tsx:147-149 | Definition: the `nav` (and its reference) exists exactly when there are items; `HandleScroll` and `ToggleCollapsed` depend on it |
| TocWidget.TableOfContents.GenerateToc | src/components/TableOfContents.tsx:52-76 | The loop leaves the items given by `TocSpec` and rewrites the document's headings as `AssignIds` does |
| TocWidget.TableOfContents.ObservedTargets | src/components/TableOfContents.tsx:95-99 | The loop collects exactly the ids `ObservedIds` gives, in document order |
| TocWidget.TableOfContents.Mount | src/components/TableOfContents.tsx:32-37 | The scan comes first, so every item with a non-empty id is among the observed targets |
| TocWidget.TableOfContents.OnIntersection | src/components/TableOfContents.tsx:82-88 | The callback loop leaves the active id that `ActiveAfter` gives for the batch |
| TocWidget.TableOfContents.HandleScroll | src/components/TableOfContents.tsx:102-107 | Once the widget is rendered, sticky exactly when `top <= 20`; before that, unchanged |
| TocWidget.TableOfContents.ToggleCollapsed | src/components/TableOfContents.tsx:177-179 | A click flips the collapsed flag |
| TocWidget.ToggleTwice | src/components/TableOfContents.tsx:179 | Two clicks restore the collapsed flag and change nothing else |
| TocWidget.TableOfContents.ProgressPercent | src/components/TableOfContents.tsx:252 | The shown progress lies in 0..100 and is 0 when the active id matches no item |
| TocWidget.TableOfContents.IsActive | src/components/TableOfContents.tsx:210 | Definition: an item is drawn active when its id is the active id; `ActiveItemMatchesProgress` states its properties |
| TocWidget.ActiveItemMatchesProgress | src/components/TableOfContents.tsx:210-252 | Some item is drawn active exactly when the progress bar finds a match; with distinct ids at most one item is active |
| TocWidget.TableOfContents.GetNumbering | src/components/TableOfContents.tsx:138-143 | With the widget's `showNumbers`: `""` when off, otherwise the ordinal `index + 1` and a dot |
| TocWidget.MountThenScroll | src/components/TableOfContents.tsx:78-99 | Mounting and then a batch ending on a deep heading leaves that heading's id active, observed, with progress 0 |
| Pagination.VisiblePages | src/components/Pagination.tsx:10-33 | The bar has at most seven slots, and exactly seven from page 1 to the last when there are more than seven pages; the lemmas below state its shapes and structure |
| Pagination.SmallBarShowsAllPages | src/components/Pagination.tsx:10-14 | Up to seven pages: exactly `[1..totalPages]`, with no placeholder |
| Pagination.HeadShape | src/components/Pagination.tsx:16-18 | More than seven pages, current page at most 4: `[1..5, '...', total]` |
| Pagination.TailShape | src/components/Pagination.tsx:20-22 | More than seven pages, current page from `total-3` (and above 4): `[1, '...', total-4..total]` |
| Pagination.LargeBarShape | src/components/Pagination.tsx:16-32 | More than seven pages: seven slots from page 1 to the last, in the shape the current page selects, including the middle window `[1, '...', c-1, c, c+1, '...', total]` |
| Pagination.BarWellFormed | src/components/Pagination.tsx:13-32 | The bar starts and ends with a page. Pages increase strictly, neighbouring pages are consecutive, and each placeholder sits between pages more than one apart |
| Pagination.BarNumbersInRange | src/components/Pagination.tsx:13-32 | Every page on the bar lies in 1..totalPages |
| Pagination.BarContainsCurrent | src/components/Pagination.tsx:16-32 | A current page in 1..totalPages is on the bar |
| Pagination.BarCoversAllPages | src/components/Pagination.tsx:16-32 | Every page is on the bar or strictly between the neighbours of a placeholder |
| Pagination.PageHref | src/components/Pagination.tsx:56 | `baseUrl/page`, which is never the placeholder `#` |
| Pagination.PageHrefDistinct | src/components/Pagination.tsx:56 | A page link is never `#`, and distinct pages get distinct links |
| Pagination.PrevHref | src/components/Pagination.tsx:38 | Previous is `#` exactly when the current page is 1 or lower |
| Pagination.PrevDisabled | src/components/Pagination.tsx:40-44 | Definition: Previous is disabled on page 1; `PrevLink` ties it to the link |
| Pagination.NextHref | src/components/Pagination.tsx:69 | Next is `#` exactly when the current page is the last page or beyond |
| Pagination.NextDisabled | src/components/Pagination.tsx:71-75 | Definition: Next is disabled on the last page; `NextLink` ties it to the link |
| Pagination.PrevLink | src/components/Pagination.tsx:38-44 | On a valid page, Previous is `#` exactly when disabled (page 1), and otherwise links to page c-1 |
| Pagination.NextLink | src/components/Pagination.tsx:68-75 | On a valid page, Next is `#` exactly when disabled (the last page), and otherwise links to page c+1 |
| Pagination.RenderSlot | src/components/Pagination.tsx:49-66 | Definition: `'...'` renders as a gap, a page as a link that is highlighted when it is the current page; `RenderBar` states its properties |
| Pagination.RenderBar | src/components/Pagination.tsx:49-66 | One slot per bar entry, a gap exactly where the bar has `...`. The slot of bar entry `n` is the link to `baseUrl/n`, highlighted exactly when n is the current page, and every linked page lies in 1..totalPages |
| Pagination.OneHighlightedSlot | src/components/Pagination.tsx:56-61 | On a valid page: some slot is the highlighted link to the current page, no two slots are highlighted, and no two links share a target |
| BlogFilter.HasTag | src/components/BlogFilter.tsx:20 | Definition: a post carries a tag when its tag list is present and contains it; `FilterCounts` and `FilteredPostsSpec` use it |
| BlogFilter.FilterByTag | src/components/BlogFilter.tsx:19-21 | The result is no longer than the input, and holds only input posts that carry the tag |
| BlogFilter.FilterCounts | src/components/BlogFilter.tsx:19-21 | A post occurs in the result as often as in the input when it carries the tag, and never otherwise (sound and complete) |
| BlogFilter.FilterMembership | src/components/BlogFilter.tsx:19-21 | A post is in the result exactly when it is an input post carrying the tag |
| BlogFilter.FilterIsSubsequence | src/components/BlogFilter.tsx:19-21 | The result is an order-preserving subsequence of the input |
| BlogFilter.FilterKeepsTagged | src/components/BlogFilter.tsx:19-21 | A list whose posts all carry the tag passes through unchanged |
| BlogFilter.FilterIdempotent | src/components/BlogFilter.tsx:19-21 | Filtering again by the same tag changes nothing |
| BlogFilter.Filtered | src/components/BlogFilter.tsx:15-22 | The shown posts are input posts and no more of them, and under any tag but `'all'` every shown post carries it |
| BlogFilter.FilteredPostsSpec | src/components/BlogFilter.tsx:15-22 | `'all'` returns the posts unchanged. Results are always ordered subsequences no longer than the input; any other tag selects exactly the posts carrying it, and never a post without tags |
| BlogFilter.AllTagShadowsRealTag | src/components/BlogFilter.tsx:18 | A post really tagged `"all"` cannot be singled out: choosing `'all'` shows the untagged post too |
| BlogFilter.ExactlyOneButtonActive | src/components/BlogFilter.tsx:32-63 | With distinct tags other than `"all"`, a chosen tag that has a button among All Posts and the tag buttons lights exactly one button |
| BlogFilter.TagFilter.constructor | src/components/BlogFilter.tsx:12 | The initial chosen tag is `'all'` |
| BlogFilter.TagFilter.HandleTagClick | src/components/BlogFilter.tsx:28-30 | A click makes the clicked tag the chosen one, and changes nothing else |
| BlogFilter.TagFilter.FilteredPosts | src/components/BlogFilter.tsx:15-22 | The shown posts are input posts, no more of them than the input; all posts under `'all'`, and only posts carrying the tag otherwise |
| BlogFilter.TagFilter.IsActive | src/components/BlogFilter.tsx:32-33 | Definition: the button for a tag is active when the tag is the chosen one; `ClickThenShow` states its properties |
| BlogFilter.TagFilter.ShowsEmptyState | src/components/BlogFilter.tsx:73 | Definition: the message shows when no post is selected; `EmptyStateExactly` states its properties |
| BlogFilter.EmptyStateExactly | src/components/BlogFilter.tsx:73 | The empty state shows exactly when no post is selected: under `'all'` only when there are no posts, under a tag exactly when no post carries it |
| BlogFilter.ClickThenShow | src/components/BlogFilter.tsx:28-33 | After a click only the clicked tag's button is lit, and the shown posts are exactly those carrying it (all of them for `'all'`) |

## Left out

- `ShareButtons.tsx`, `Tags.tsx`, `content.config.ts`, `tailwind.config.cjs` and `astro.config.mjs` are not part of this model. They are browser I/O, fixed markup, or configuration of libraries that are not part of this model.
- Browser geometry. The observer's trigger band (`rootMargin`), `getBoundingClientRect` and `pageYOffset` are not modelled, and neither is the smooth `scrollToHeading` of an item click. Intersection entries and the widget's `top` are parameters instead.
- Lifecycle. Registering the listeners on mount and removing them on cleanup belongs to the framework. The model keeps only the order "scan, then observe" (`Mount`).
- `console.log`, `createEffect`, and all markup and CSS classes are left out, except the active, indent and highlight predicates.
- The CSS width string of the progress bar is left out. So is floating-point error at exact halves in `Math.round`: the model rounds exact rationals half up.
- Unicode. Non-ASCII whitespace and word characters, and non-ASCII case mapping, are outside the model. JavaScript's `\s` also matches U+00A0, U+FEFF, U+2028, U+2029 and the other space separators, so `"a\u00A0b"` gives `"a-b"` in the component but `"ab"` in the model. Under the model every non-ASCII character is deleted. `toLowerCase` can, for example, turn `İ` into `i` followed by a combining mark, and that `i` would survive.
- `TocWidget.TableOfContents.ToggleCollapsed`: requires a rendered, collapsible widget, because the button exists only then.
- `TocWidget.TableOfContents.ProgressPercent`: states only that no matching item forces 0, not the converse. A match can round to 0: with 201 items and the first one active, round(1 / 201 * 100) = 0 (`Toc.ProgressZeroWithMatch`).
- `Pagination.PrevLink`, `Pagination.NextLink`, `Pagination.OneHighlightedSlot`: proved only for a current page in 1..totalPages. Outside that range the functions still follow the source, but the `#`-iff-disabled link no longer holds. For example, page 0 has a `#` Previous link that is not marked disabled.
- `BlogFilter.ExactlyOneButtonActive`: proved only for distinct tags that do not include `"all"`. A duplicate tag lights two buttons.
- Non-integer page numbers and a fractional or `NaN` `maxLevel` prop are not modelled: page numbers are whole numbers here, and `Toc.EffectiveMaxLevel` takes an optional whole number (so `NaN || 3`, which gives 3, has no counterpart). Heading levels are whole by construction (the digit of the tag name). The scroll position is a real number.
- Numbers of magnitude 10^21 or more, which `${n}` prints in exponent notation, are not modelled: `Decimal.IntToString` always prints every digit.

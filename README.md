# Endora Creatives site — a Dafny model of its interactive rules

The site is a single-page marketing layout built from React components.
Almost all of it is markup and styling; what this project models are the
small rules and state machines inside seven components:

- **Testimonial carousel** (`Testimonials`): an index over `count`
  testimonials. Next and previous wrap around, a dot jumps to its index,
  the arrow keys act as next and previous, and auto-play ticks call next
  with a period of at least 3000 ms. With fewer than two testimonials
  every move is a no-op.
- **Portfolio filter** (`Portfolio`): the items of the active category
  ("All" keeps everything), the "N project(s) shown" live-region text, the
  empty-state block and the pressed toolbar button.
- **Scroll-spy and smooth scroll** (`Navigation`): which nav item is
  current. It is the intersecting entry of greatest ratio after a stable
  sort; when nothing intersects, a loop picks the section closest to the
  top. Also the header offset subtracted when scrolling to a section.
- **Footer newsletter** (`Footer`): the e-mail pattern on the trimmed
  input, the `email`/`loading` transitions of the subscribe handler, the
  field's `aria-invalid`, and the rule that a link appears only for a
  truthy href.
- **Author initials** (`Blog`): `getInitials` and the avatar-or-initials
  choice.
- **Contact form** (`Contact`): the schema's field constraints, the two
  select enumerations, the description counter, and the `submitting`
  flag with reset-on-success.
- **Case-study dialog** (`Page`): `selectedWork` with its open, close and
  "get in touch" transitions, and the get-started scroll offset.

`JsText` holds the ECMAScript string behaviour these rules share: the
white-space class of `\s` and `trim`, ASCII `toUpperCase`, truthiness of
an optional string, and decimal rendering of counts with its inverse.
`Sequences` defines when one sequence is another with elements left out in order, which states that each filter keeps order. `Wrappers` holds `Option`, and `Toasts` holds the toast notifications.

State that a component keeps in React hooks is a class whose fields are
those hooks. Each method's postcondition ties the new state to a pure
transition function. The properties are lemmas about those functions.
The browser is reduced to inputs: IntersectionObserver entries, bounding
rectangles, `scrollY`, the header height, and which ids the document
holds. The outcome of an awaited callback is an input too. Scroll
handlers return the offset they would pass to `window.scrollTo`.

All files are verified together: `dafny verify *.dfy`.

## Model

| member | source | states |
|---|---|---|
| `Testimonials.HasMany` | src/components/testimonials-section.tsx:78 | the controls act only with two or more testimonials; its use is stated by `NextIndex`, `PrevIndex`, `OnKeyDown` and `AutoPlayPeriod` |
| `Testimonials.NextIndex` | src/components/testimonials-section.tsx:78-83 | with two or more items, next moves one on and the last index wraps to 0; with fewer it stays; the result is always in range |
| `Testimonials.PrevIndex` | src/components/testimonials-section.tsx:85-88 | with two or more items, prev moves one back and 0 wraps to count-1; with fewer it stays; the result is always in range |
| `Testimonials.PrevAfterNext` | src/components/testimonials-section.tsx:80-88 | prev undoes next |
| `Testimonials.NextAfterPrev` | src/components/testimonials-section.tsx:80-88 | next undoes prev |
| `Testimonials.OnKeyDown` | src/components/testimonials-section.tsx:96-105 | ArrowRight acts as next, ArrowLeft as prev, other keys change nothing; the default is prevented exactly for an arrow key with two or more items |
| `Testimonials.AutoPlayPeriod` | src/components/testimonials-section.tsx:90-94 | a timer runs exactly when auto-play is on and there are two or more items; its period is max(3000, requested) |
| `Testimonials.DotsSelected` | src/components/testimonials-section.tsx:229-248 | one dot per testimonial, and none with fewer than two |
| `Testimonials.ExactlyOneDotSelected` | src/components/testimonials-section.tsx:231-238 | exactly one dot is `aria-selected`: the one at the current index |
| `Testimonials.Step` | src/components/testimonials-section.tsx:80-105 | any click, key or tick keeps the index in range |
| `Testimonials.Run` | src/components/testimonials-section.tsx:76-88 | the index stays in [0, count) under any sequence of interactions whose dot clicks name rendered dots |
| `Testimonials.SingleItemNeverMoves` | src/components/testimonials-section.tsx:78-97 | with a single testimonial no sequence of interactions moves the index |
| `Testimonials.NextClicksRotate` | src/components/testimonials-section.tsx:80-83 | n presses of next move the index n places round the circle |
| `Testimonials.Carousel.constructor` | src/components/testimonials-section.tsx:76-77 | the index starts at 0 |
| `Testimonials.Carousel.Next` | src/components/testimonials-section.tsx:80-83 | the next button sets the index to `NextIndex` |
| `Testimonials.Carousel.Prev` | src/components/testimonials-section.tsx:85-88 | the previous button sets the index to `PrevIndex` |
| `Testimonials.Carousel.GoTo` | src/components/testimonials-section.tsx:240 | a dot click sets the index to the dot's position |
| `Testimonials.Carousel.KeyDown` | src/components/testimonials-section.tsx:96-105 | the key handler's effect and `preventDefault` are those of `OnKeyDown` |
| `Testimonials.Carousel.Tick` | src/components/testimonials-section.tsx:90-94 | an interval firing, which exists only when a period is set, acts as next |
| `Portfolio.OfCategory` | src/components/portfolio-section.tsx:98 | keeps exactly the items of the category and is no longer than the list |
| `Portfolio.Filtered` | src/components/portfolio-section.tsx:96-100 | shows exactly the items of the active category, or every item under "All"; order and counts by `FilteredAll` and `FilteredCategory` |
| `Portfolio.FilteredAll` | src/components/portfolio-section.tsx:97-98 | under "All" the shown list is the item list unchanged |
| `Portfolio.FilteredCategory` | src/components/portfolio-section.tsx:98 | under another category the shown list is a subsequence of the items (original order) holding each item of that category as often as the list does, and nothing else |
| `Portfolio.CategoriesPartition` | src/components/portfolio-section.tsx:8-14 | since no item is "All", the Branding, Web Design and Development counts sum to the "All" count |
| `Portfolio.Announcement` | src/components/portfolio-section.tsx:103 | the live-region text for a count; what it says is stated by `AnnouncementReadsBack` |
| `Portfolio.AnnouncementReadsBack` | src/components/portfolio-section.tsx:102-104 | the announcement starts with the shown count, followed by " project shown" exactly when the count is 1 and " projects shown" otherwise |
| `Portfolio.ShowsEmptyState` | src/components/portfolio-section.tsx:257 | the empty state condition; stated in the source's terms by `EmptyStateIff` |
| `Portfolio.EmptyStateIff` | src/components/portfolio-section.tsx:257 | the empty state shows exactly when the filter is not "All" and no item has the active category, or the list is empty |
| `Portfolio.CategoryIndex` | src/components/portfolio-section.tsx:78-84 | every category has a button in the toolbar |
| `Portfolio.PressedButtons` | src/components/portfolio-section.tsx:138-146 | one `aria-pressed` value per toolbar button |
| `Portfolio.ExactlyOnePressed` | src/components/portfolio-section.tsx:138-146 | exactly one button is pressed: the active category's |
| `Portfolio.PortfolioSection.constructor` | src/components/portfolio-section.tsx:86-104 | the filter starts at `initialFilter`, "All" when not given, and the announcement matches it |
| `Portfolio.PortfolioSection.SetActive` | src/components/portfolio-section.tsx:145 | a button click makes its category active; the effect keeps the announcement equal to the text for the new shown count, rewriting it only when the count changes |
| `Navigation.SectionIds` | src/components/navigation-header.tsx:49-53 | exactly the ids of items whose section exists in the document are observed |
| `Navigation.SectionIdsInOrder` | src/components/navigation-header.tsx:49-53 | the observed ids keep the order of the items, which decides the fallback's tie-break |
| `Navigation.SectionIdsCounts` | src/components/navigation-header.tsx:49-53 | each present id is observed once per item carrying it, and absent ids never |
| `Navigation.Intersecting` | src/components/navigation-header.tsx:58 | keeps exactly the intersecting entries and is no longer than the entries |
| `Navigation.IntersectingInOrder` | src/components/navigation-header.tsx:58 | the filter keeps the order in which the entries were reported |
| `Navigation.IntersectingCounts` | src/components/navigation-header.tsx:58 | each intersecting entry is kept as often as reported, and no other entry is |
| `Navigation.Insert` | src/components/navigation-header.tsx:59 | one step of the sort: adds the entry and nothing else |
| `Navigation.SortByRatio` | src/components/navigation-header.tsx:59 | the sort is a permutation of the intersecting entries |
| `Navigation.SortDescending` | src/components/navigation-header.tsx:59 | the sorted list runs from the greatest ratio down |
| `Navigation.SortHead` | src/components/navigation-header.tsx:57-62 | the head of the stable sort is the earliest entry of greatest ratio |
| `Navigation.Visible` | src/components/navigation-header.tsx:57-59 | the intersecting entries, reordered; order stated by `SortDescending` and `SortHead` |
| `Navigation.EarliestMaxUnique` | src/components/navigation-header.tsx:57-62 | that entry is unique |
| `Navigation.EarliestInEntries` | src/components/navigation-header.tsx:57-59 | the head of the sorted intersecting entries is the earliest-reported intersecting entry of greatest ratio in the raw entries |
| `Navigation.PrimaryChoice` | src/components/navigation-header.tsx:60-62 | yields only a non-empty id of an intersecting entry; which one is stated by `PrimaryChoiceSpec` |
| `Navigation.PrimaryChoiceSpec` | src/components/navigation-header.tsx:57-63 | with no intersecting entry the primary rule does not apply; otherwise it names the intersecting entry of greatest ratio reported first among equals, unless that entry's id is empty |
| `Navigation.PrimaryWinnerIntersects` | src/components/navigation-header.tsx:58-62 | a non-intersecting entry never wins; the winner's ratio is at least every intersecting entry's |
| `Navigation.ClosestToTop` | src/components/navigation-header.tsx:64-73 | the fallback loop finds the section of smallest \|top\|, the earliest on a tie, and nothing only when there are no sections |
| `Navigation.ClosestUnique` | src/components/navigation-header.tsx:69 | the strict comparison makes the fallback's choice unique |
| `Navigation.Round` | src/components/navigation-header.tsx:101 | `Math.round` lies within half a unit of its argument |
| `Navigation.HeaderOffset` | src/components/navigation-header.tsx:94-101 | the subtracted offset is the rounded header height but never below 8 |
| `Navigation.SmoothScrollTarget` | src/components/navigation-header.tsx:87-107 | no scroll when the section is missing; otherwise the section lands the offset below the viewport top, at least 8 px and not more than half a pixel under the header |
| `Navigation.AriaCurrent` | src/components/navigation-header.tsx:145-152 | one `aria-current` flag per item; which one is set is stated by `AtMostOneCurrent` |
| `Navigation.AtMostOneCurrent` | src/components/navigation-header.tsx:145-152 | with distinct ids at most one item carries `aria-current`, the one whose id is active |
| `Navigation.NavigationHeader.constructor` | src/components/navigation-header.tsx:43 | `activeId` starts null |
| `Navigation.NavigationHeader.Mount` | src/components/navigation-header.tsx:46-53 | the observed sections are those found; `activeId` is untouched, so with none found it stays null |
| `Navigation.NavigationHeader.OnIntersect` | src/components/navigation-header.tsx:55-75 | the callback applies the primary rule when it applies and the closest-to-top section otherwise |
| `Footer.EmailPattern` | src/components/footer.tsx:70 | the subscribe check; its language is stated by `EmailPatternIsRegex` |
| `Footer.EmailPatternIsRegex` | src/components/footer.tsx:70 | the e-mail test (no white space, exactly one '@' not first, a '.' inside the domain that is neither its first nor last character) accepts exactly the regular expression's language |
| `Footer.PatternHasNothingToTrim` | src/components/footer.tsx:69-70 | an accepted address has no surrounding white space |
| `Footer.AriaInvalid` | src/components/footer.tsx:171 | the field's invalid mark; related to submit by `NotMarkedInvalidIsAccepted` and `PaddedValueMarkedButAccepted` |
| `Footer.NotMarkedInvalidIsAccepted` | src/components/footer.tsx:171 | a non-empty value the field does not mark invalid passes the submit check unchanged by trimming |
| `Footer.PaddedValueMarkedButAccepted` | src/components/footer.tsx:69-74 | the field marks "a@b.co" preceded by a no-break space invalid (it tests the raw value) while submit accepts it (it tests the trimmed value); browsers strip only ASCII white space from the value |
| `Footer.Newsletter.constructor` | src/components/footer.tsx:64-65 | the form starts empty and not loading |
| `Footer.Newsletter.Input` | src/components/footer.tsx:169 | typing replaces the e-mail value |
| `Footer.Newsletter.Submit` | src/components/footer.tsx:67-78 | an invalid trimmed address only raises the error toast; a valid one sets `loading` and hands the trimmed address, not the raw input, to `onSubscribe` |
| `Footer.Newsletter.Settle` | src/components/footer.tsx:75-89 | success clears the e-mail, failure keeps it, and `loading` is false afterwards either way |
| `Footer.LinkOrText` | src/components/footer.tsx:94-119 | a link exactly when the href is truthy, otherwise an aria-disabled span |
| `Footer.FooterLinkSmall` | src/components/footer.tsx:339-361 | the same rule as `LinkOrText` |
| `Footer.SocialButton` | src/components/footer.tsx:299-337 | a new-tab anchor exactly when the href is truthy, otherwise a disabled button titled "… link unavailable" |
| `Footer.EmptyHrefIsAbsent` | src/components/footer.tsx:101 | an empty href renders like a missing one |
| `JsText.TrimStart` | src/components/footer.tsx:69 | removes exactly the leading white space |
| `JsText.TrimEnd` | src/components/footer.tsx:69 | removes exactly the trailing white space |
| `JsText.Trim` | src/components/footer.tsx:69 | `trim` gives the slice between leading and trailing white space, empty exactly for an all-white-space string |
| `JsText.TrimIdempotent` | src/components/blog-section.tsx:214 | trimming twice is trimming once |
| `JsText.ToUpper` | src/components/blog-section.tsx:217 | upper-cases character by character |
| `JsText.DecimalString` | src/components/portfolio-section.tsx:103 | a count renders as decimal digits with no leading zero |
| `JsText.DecimalRoundTrip` | src/components/portfolio-section.tsx:103 | the rendered count parses back to the count |
| `Blog.Split` | src/components/blog-section.tsx:214 | `split(" ")` gives at least one piece and no piece contains a space |
| `Blog.SplitJoin` | src/components/blog-section.tsx:214 | joining the pieces with single spaces gives the string back |
| `Blog.NonEmpty` | src/components/blog-section.tsx:214 | `filter(Boolean)` keeps exactly the non-empty pieces |
| `Blog.NonEmptyInOrder` | src/components/blog-section.tsx:214 | `filter(Boolean)` keeps the pieces' order |
| `Blog.NonEmptyCounts` | src/components/blog-section.tsx:214 | each non-empty piece is kept as often as it occurs, and no empty piece is |
| `Blog.NonEmptyLast` | src/components/blog-section.tsx:214 | a non-empty last piece is the last word |
| `Blog.Words` | src/components/blog-section.tsx:214 | the words are non-empty and contain no space |
| `Blog.WordsArePieces` | src/components/blog-section.tsx:214 | the words are the non-empty pieces of the trimmed name split on spaces, in order and with repetitions |
| `Blog.SplitLastPiece` | src/components/blog-section.tsx:214 | the last piece of `split(" ")` is what follows the last space |
| `Blog.GetInitials` | src/components/blog-section.tsx:213-218 | never more than two initials; their content is stated by `InitialsShape`, `FirstInitial` and `LastInitial` |
| `Blog.InitialsShape` | src/components/blog-section.tsx:213-218 | one initial for one word; for two or more, the first letters of the first and last words, middle words ignored; never more than two |
| `Blog.FirstInitial` | src/components/blog-section.tsx:215 | the first initial is the name's first non-white-space character, upper-cased |
| `Blog.LastInitial` | src/components/blog-section.tsx:216-217 | with two or more words, the second initial is the upper-cased character following the last space of the trimmed name |
| `Blog.NoInitialsIffBlank` | src/components/blog-section.tsx:213-218 | the initials are empty exactly when the name is empty or all white space |
| `Blog.InitialsDrawOnName` | src/components/blog-section.tsx:215-217 | every initial is an upper-cased character of the name |
| `Blog.AuthorBadge` | src/components/blog-section.tsx:180-192 | the avatar image exactly when `avatarUrl` is truthy, otherwise the initials |
| `Contact.Message` | src/components/contact-section.tsx:48-60 | each field error's message; only the out-of-list select errors have none of their own |
| `Contact.EnumErrors` | src/components/contact-section.tsx:51-56 | an unset select reports "required", a value outside the list reports "invalid", a listed value nothing |
| `Contact.Validate` | src/components/contact-section.tsx:47-61 | each field error is reported exactly when its field fails its own constraint |
| `Contact.ValidateIffAcceptable` | src/components/contact-section.tsx:47-61 | no error exactly when the name has at least 2 characters, the e-mail passes, the company is absent or at most 120 long, both selects hold listed values, and the description is 20 to 2000 long |
| `Contact.CompanyOk` | src/components/contact-section.tsx:50 | the company rule; simplified by `CompanyEmptyAlternativeRedundant` |
| `Contact.CompanyEmptyAlternativeRedundant` | src/components/contact-section.tsx:50 | the `""` alternative of the company field adds nothing to "absent or at most 120" |
| `Contact.DefaultsRejected` | src/components/contact-section.tsx:76-83 | the blank form fails on name, both selects and description, but not on company |
| `Contact.DescriptionCounter` | src/components/contact-section.tsx:273 | the counter text; what it says is stated by `DescriptionCounterReadsBack` |
| `Contact.DescriptionCounterReadsBack` | src/components/contact-section.tsx:272-274 | the counter shows the description's length followed by "/2000" |
| `Contact.ContactForm.constructor` | src/components/contact-section.tsx:71-84 | the form starts at its default values, not submitting |
| `Contact.ContactForm.Edit` | src/components/contact-section.tsx:281 | editing, possible only while not submitting, replaces the values |
| `Contact.ContactForm.Submit` | src/components/contact-section.tsx:86-94 | with errors the handler is not called and nothing changes; otherwise `submitting` is set and the values go to `onSubmit` |
| `Contact.ContactForm.Settle` | src/components/contact-section.tsx:95-101 | success resets the form to its defaults, failure keeps the values and reports an error, and `submitting` is false afterwards either way |
| `Page.NextSelected` | src/app/page.tsx:28-39 | viewing sets `selectedWork` to exactly that item; every other transition clears it |
| `Page.DialogOpen` | src/app/page.tsx:96 | the dialog is rendered exactly when a work is selected; its transitions are stated by `NextSelected` and `CloseControlsAgree` |
| `Page.CloseControlsAgree` | src/app/page.tsx:32-34 | the backdrop, the ✕ and the Close button are the same transition, closing is idempotent, and afterwards the dialog is not rendered |
| `Page.ReplayLast` | src/app/page.tsx:28-39 | after any series of dialog events the state is determined by the last one |
| `Page.GetStartedTarget` | src/app/page.tsx:20-26 | no scroll when `#contact` is missing; otherwise the section lands 72 px below the viewport top |
| `Page.PageState.constructor` | src/app/page.tsx:18 | no work is selected at first |
| `Page.PageState.HandleViewCaseStudy` | src/app/page.tsx:28-30 | selects exactly the given item |
| `Page.PageState.CloseWorkDialog` | src/app/page.tsx:32-34 | clears the selection |
| `Page.PageState.JumpToContact` | src/app/page.tsx:36-39 | closes the dialog, then scrolls to the get-started target |

## Left out

- Markup, Tailwind classes, icons, inline SVG paths and animation timing carry no behaviour and are not modelled.
- Browser APIs are inputs rather than models: IntersectionObserver, `getBoundingClientRect`, `getElementById`, `window.scrollTo`, `setInterval` and `setTimeout`. The observer's thresholds and root margin (src/components/navigation-header.tsx:76-80) decide which entries the browser reports; the model takes the entries as given.
- Floating point: ratios, positions and the header height are reals, and `Math.round` is floor(x + 0.5) on reals. The auto-play period is an integer.
- Strings are sequences of Unicode characters. JavaScript's `.length` and indexing count UTF-16 units, so characters outside the Basic Multilingual Plane count once here but twice in the source.
- `JsText.ToUpperChar`: only ASCII letters are upper-cased. JavaScript's full Unicode mapping, including one-to-many cases such as "ß" to "SS", is not modelled.
- Contact e-mail: zod's e-mail check is the uninterpreted parameter `isEmail`. The library's default texts for an out-of-list select value, and the way the company field's union wraps its message, are library internals (`Contact.Message` gives `None` for the former).
- react-hook-form's field registration, touch-driven re-validation and error display are not modelled. Its submit is modelled as "validate, then call the handler only when valid".
- `e.preventDefault()` in the smooth-scroll handler (src/components/navigation-header.tsx:88), which runs even when the section is missing, and in the subscribe handler (src/components/footer.tsx:68) is not modelled: the browser's default navigation and form submission are outside the model.
- Toasts are returned as values; the toast library itself is not modelled.
- Async is split at the `await`. `Submit` runs up to it and `Settle` after it. Whether the awaited callback rejected is an input, and the simulated delay never rejects. Re-render timing and effect dependency arrays are not modelled, except that no timer runs when auto-play is off.
- `Testimonials.Carousel.constructor`: requires at least one testimonial. Rendering reads `testimonials[index]`, and the source does not handle an empty or shrinking list (src/components/testimonials-section.tsx:107), so the count is fixed.
- `Footer.Newsletter.Submit`: the button is disabled while loading (src/components/footer.tsx:175), but a second submission is not excluded by a precondition; the model's submit acts the same in either state.
- `Navigation.NavigationHeader.Mount`: re-running the effect when `items` changes, and disconnecting the observer on teardown, are not modelled; `items` is fixed.
- `Navigation.SortByRatio`: the sort is proved a permutation, descending, and headed by the earliest maximal entry, which is all the callback reads. Full stability of the rest of the order is not stated.
- `Portfolio.PortfolioSection.constructor` covers the first render together with its announcement effect. The empty announcement that exists before the effect runs is not modelled.
- The portfolio card's button does nothing when no `onViewCaseStudy` is given (src/components/portfolio-section.tsx:238). The page always passes one, so the model starts from `Page.PageState.HandleViewCaseStudy`.
- about-section.tsx, services-section.tsx and hero-section.tsx are presentational, so they are not modelled. Their slice caps and delay arithmetic have no state. The hero's anchor scroll duplicates the page's offset rule.

# Portfolio site interactions — a verified Dafny model

This project models the client-side behaviour of a single-page portfolio site. Almost
all of the site is markup. The model covers its few stateful or decision-making parts:

- **Project gallery** (`Projects`): a fixed catalog of four projects and a row of filter
  buttons ("All", "Full Stack", "Frontend", "Backend") with one selected filter. The
  gallery shows either the whole catalog or the catalog's projects of the selected
  category, as a grid of cards.
- **Project card** (`ProjectCard`): one badge per technology, looked up in a fixed icon
  table whose fallback is the technology's name as text. The Code and Live links appear
  only for non-empty URLs. The entrance delay grows with the card's position.
- **Hero banner** (`Hero`): the greeting `Hey, I'm <name> âœ¨` followed by a line break
  and the role. A timer types it out one character per tick. The name is highlighted
  inside the typed text. The description, the two buttons and the social icons appear
  only once typing is done.
- **Navigation bar** (`Nav`): a "scrolled" flag, true exactly when the offset exceeds 50,
  and an open/closed mobile menu that the hamburger, an outside mousedown and a link
  click act on. The outside-mousedown listener is registered only while the menu is open.
- **Contact form** (`ContactForm`): `loading` and a status of blank, success or error.
  Transitions happen on submit and on the email provider's success or failure callback.
  A success resets the inputs.

Modules follow the source files. State that the source changes in place is a class whose
methods state the new state: `ProjectFilter`, `Typewriter`, `NavMenu` and `ContactForm`.
The decisions computed from that state are pure functions and lemmas. For the navigation
bar, a pure step function `Nav.Step` over `NavState` is the specification. The event
handlers `OnScroll`, `Toggle`, `MouseDown`, `LinkClick` and `PressHamburger` ensure that
the new state is `Step` of the old one. `PressHamburgerAsWritten` ensures that it is
`Run` of the old state over a mousedown outside the menu and a toggle. `Unmount` keeps the
state and `SyncOutsideListener` changes only the listener flag. The lemmas about
`Nav.Run` (a sequence of steps) give the properties of event sequences.

Time is abstracted away. The typing timer becomes a `Tick()` call. Animation delays are
integer tenths of a second: 0.2 s per card is `2 * index`, 0.3 s per hero button is
`3 * i`, and 1.2 s for the social icons is `12`. The browser is abstracted too. The
scroll offset is an `int`, and "is the target inside the menu" and "does the link's
anchor exist" are booleans. The email provider is reduced to recorded requests plus
callbacks.

The greeting in `src/sections/Hero.tsx:23` holds the three characters U+00E2 U+0153 U+00A8
(`âœ¨`, the sparkles emoji mis-decoded when stored), not the emoji. The
model follows the code: `Hero.Separator` is a space, those three characters and a line
break.

## Model

| member | source | states |
|---|---|---|
| `ProjectCard.TechBadge` | src/component/ProjectCard.tsx:85 | a technology gets an icon badge exactly when it is a key of the icon table, and that icon is the table's entry; any other technology gets a text badge carrying its own name |
| `ProjectCard.Badges` | src/component/ProjectCard.tsx:83-87 | exactly one badge per technology, badge k being that of technology k, in the order of the technology list |
| `ProjectCard.UnknownTechShownAsText` | src/component/ProjectCard.tsx:85 | a technology missing from the table, at any position of the list, is rendered as text with its own name |
| `ProjectCard.NodeSpellingsShareIcon` | src/component/ProjectCard.tsx:35-36 | "Nodejs" and "Node.js" are drawn with the same Node.js icon |
| `ProjectCard.Links` | src/component/ProjectCard.tsx:92-111 | the Code link is present exactly when `github` is non-empty and the Live link exactly when `demo` is non-empty; no other link appears, the number of links is the number of non-empty URLs, and the Code link comes first and the Live link last |
| `ProjectCard.EntranceDelay` | src/component/ProjectCard.tsx:60 | the delay of the card at position `index` is even and its half is `index` (0.2 s per position); only position 0 starts at once |
| `ProjectCard.EntranceDelayMonotone` | src/component/ProjectCard.tsx:60 | a later position never has a smaller delay |
| `ProjectCard.Render` | src/component/ProjectCard.tsx:57-114 | a card shows its project's title, year, description and image, the technology badges of `Badges` (one per technology, in order), the links of `Links`, and the delay of its position |
| `Projects.WithCategory` | src/sections/Projects.tsx:118 | the category filter is never longer than its input and contains a project exactly when the input contains it with that category |
| `Projects.FilteredProjects` | src/sections/Projects.tsx:115-118 | the shown list is never longer than the catalog; "All" gives the catalog itself, and any other selection gives exactly the catalog's projects of that category |
| `Projects.WithCategoryMultiplicity` | src/sections/Projects.tsx:118 | every copy of a project of the category is kept and every copy of any other project dropped: the result has each project as often as the input when its category matches, and never otherwise |
| `Projects.WithCategoryIsSubsequence` | src/sections/Projects.tsx:118 | the filtered list is a subsequence of its input: input order is kept |
| `Projects.FilteredIsOrderedSubsequence` | src/sections/Projects.tsx:115-118 | under every selection the shown list is an order-preserving subsequence of the catalog, hence no longer than it |
| `Projects.WithCategoryIdempotent` | src/sections/Projects.tsx:118 | filtering a filtered list again by the same category changes nothing |
| `Projects.FilteredIdempotent` | src/sections/Projects.tsx:115-118 | for a selection other than "All", filtering the shown list by the selection gives it back unchanged |
| `Projects.WithCategoryKeepsIdOrder` | src/sections/Projects.tsx:118 | a list ordered by strictly increasing id stays so ordered after filtering |
| `Projects.CatalogIdsIncreasing` | src/sections/Projects.tsx:29-78 | the shipped catalog lists ids 1, 2, 3, 4 in that order |
| `Projects.ShippedCatalogViews` | src/sections/Projects.tsx:29-118 | with the shipped catalog, "Full Stack" shows projects 1, 2, 3 in order, "Frontend" shows project 4 alone, "Backend" shows the empty list without error, and "All" shows all four |
| `Projects.ShippedCatalogAllIcons` | src/sections/Projects.tsx:36-73 | every technology named in the shipped catalog is in the icon table, so no card of the gallery falls back to a text badge |
| `Projects.ActiveButtons` | src/sections/Projects.tsx:150-158 | one flag per filter button, and button k is drawn active exactly when its filter equals the selection |
| `Projects.ExactlyOneActive` | src/sections/Projects.tsx:113 | the filter names are distinct, so after clicking button k that button is active and every other one inactive |
| `Projects.Grid` | src/sections/Projects.tsx:167-169 | there is one card per shown project and the card at position i renders project i with index i |
| `Projects.GridDelaysNonDecreasing` | src/sections/Projects.tsx:167-168 | card i's delay is 2·i tenths, and delays never decrease along the grid |
| `Projects.ProjectFilter.constructor` | src/sections/Projects.tsx:27 | the initial selection is "All", so the whole catalog is shown |
| `Projects.ProjectFilter.SelectFilter` | src/sections/Projects.tsx:153 | clicking a filter button makes exactly that filter the selection, and the shown list is recomputed from it |
| `Projects.ProjectFilter.Shown` | src/sections/Projects.tsx:115-118 | the shown list is never longer than the catalog; under "All" it is the catalog, and otherwise every shown project is a catalog project of the selected category |
| `Hero.FullText` | src/sections/Hero.tsx:23 | the full text is the greeting, then the name, then the separator " âœ¨" and a line break, then the role, each at its stated position; it is never empty |
| `Hero.Includes` | src/sections/Hero.tsx:92 | the text includes the name exactly when the name occurs in it at some position (the empty name occurs everywhere) |
| `Hero.IndexOf` | src/sections/Hero.tsx:92-96 | JavaScript's `indexOf` for `from <= |s|`, the only case the model uses (every caller passes 0): the result is -1 exactly when the text has no occurrence at or after `from`; otherwise it is an occurrence at or after `from` and no earlier one exists |
| `Hero.SplitOn` | src/sections/Hero.tsx:94-96 | JavaScript's `split` on a non-empty separator, which always gives at least one piece; its body is the definition (cut at the first occurrence, then split the rest), `SplitOnFound` states that the first piece ends at the separator's first occurrence (which `IndexOf` pins) and the rest are the pieces of the text after it, which fixes the left-to-right cutting, and `SplitOnJoin` and `SplitOnPiecesClean` state that nothing is lost and no piece contains the separator |
| `Hero.SplitOnJoin` | src/sections/Hero.tsx:94-96 | for every text and non-empty separator, joining the pieces of the split with the separator gives back the text |
| `Hero.SplitOnPiecesClean` | src/sections/Hero.tsx:94-96 | for every text and non-empty separator, no piece of the split contains the separator |
| `Hero.JsSplit` | src/sections/Hero.tsx:94-96 | JavaScript's `split`: a non-empty separator gives at least one piece, and the empty separator gives one piece of length one per character |
| `Hero.JsSplitJoin` | src/sections/Hero.tsx:94-96 | for every text and every separator, the empty one included, joining the pieces with the separator gives back the text |
| `Hero.HighlightAsWritten` | src/sections/Hero.tsx:92-100 | a text without the name is rendered unsplit; a text with the name is rendered as highlighted pieces around it |
| `Hero.HighlightAsWrittenOnce` | src/sections/Hero.tsx:92-100 | when a non-empty name occurs exactly once, at j, the pieces are the text before j, the name and the text after it, which together reconstruct the typed text |
| `Hero.HighlightAsWrittenDropsText` | src/sections/Hero.tsx:94-96 | when the name occurs twice without overlap, the rendered title is shorter than the typed text (see Findings) |
| `Hero.SecondNameDropped` | src/sections/Hero.tsx:94-96 | with name "Sam" and role "Sam Dev", the fully typed title does not show the whole text |
| `Hero.HighlightAsWrittenEmptyName` | src/sections/Hero.tsx:92-96 | with an empty name and a text of three or more characters, only the first two characters are shown (see Findings) |
| `Hero.HighlightAsWrittenVisible` | src/sections/Hero.tsx:92-100 | the banner's own rendering shows the whole typed text whenever the name is non-empty and occurs at most once in it |
| `Hero.AtMostOnceInPrefix` | src/sections/Hero.tsx:51 | a name occurring at most once in the full text occurs at most once in every typed prefix of it |
| `Hero.ShippedNameShownInFull` | src/App.tsx:15-16 | for the site's own name and role, the banner's own rendering shows every typed prefix in full, so neither highlight finding arises on the shipped site |
| `Hero.Highlight` | src/sections/Hero.tsx:92-100 | corrected highlight: the visible title is always the typed text; it is split exactly when the text includes the name, and the split falls at the name's first occurrence (for a name that also occurs in "Hey, I'm ", such as "e", that occurrence is in the greeting, not in the name's own place) |
| `Hero.HighlightAgreesWhenOnce` | src/sections/Hero.tsx:92-100 | when the name is non-empty and occurs at most once, the corrected highlight renders the same title as the banner's own code |
| `Hero.HighlightOnceNameTyped` | src/sections/Hero.tsx:92-100 | during typing, if the name first occurs where the greeting puts it, the title is unsplit until the whole name has been typed and split from then on, in the banner's own rendering and in the corrected one |
| `Hero.ShippedNameHighlight` | src/App.tsx:15-16 | for the site's own name and role, the title (as written and corrected) is split exactly once at least 15 characters have been typed |
| `Hero.ButtonAt` | src/sections/Hero.tsx:120-134 | button i carries its text and enters after 3·i tenths of a second; the first button links to "#contact" and every later one to "#projects" |
| `Hero.Render` | src/sections/Hero.tsx:91-173 | as the banner writes it: the title is split exactly when the typed text includes the name, and shows the whole typed text when the name is non-empty and occurs at most once; the description and social icons are present exactly when typing is done, the icons with their 1.2 s delay; there are no buttons before it, and afterwards button i is `ButtonAt(i, ...)` of the two texts in order |
| `Hero.RenderCorrected` | src/sections/Hero.tsx:91-173 | corrected banner: the visible title is always the typed text; apart from the title it is `Render`, and where the name is non-empty and occurs at most once it equals `Render` |
| `Hero.ButtonDelaysNonDecreasing` | src/sections/Hero.tsx:62-69 | a later button never enters before an earlier one |
| `Hero.Typewriter.constructor` | src/sections/Hero.tsx:23-25 | on mount nothing is typed (`displayedText == ""`), typing is not done and the timer is scheduled |
| `Hero.Typewriter.Tick` | src/sections/Hero.tsx:50-57 | each tick increments `i` and publishes the first `i` characters, one more than before; typing is done, and the timer is cleared, exactly when the whole text has been published |
| `Hero.Typewriter.View` | src/sections/Hero.tsx:91-173 | when the name is non-empty and occurs at most once in the full text, the banner shows the first `i` characters of it; the description appears exactly when all of it has been typed, and no button before that |
| `Hero.TypeOut` | src/sections/Hero.tsx:48-59 | running the timer until it is cleared takes exactly as many ticks as the text has characters, publishing the prefixes of lengths 0, 1, … in turn and ending with the whole text |
| `Nav.Step` | src/component/Nav.tsx:12-38 | one event: a scroll never changes the menu, no other event changes the scroll flag, a link click always leaves the menu closed, and only a toggle (the hamburger's click) opens a closed menu |
| `Nav.Run` | src/component/Nav.tsx:12-38 | a history of events applied in order: no events leave the state as it was, a history ending in a link click leaves the menu closed, and a history without scrolls leaves the scroll flag as it was |
| `Nav.ScrollStep` | src/component/Nav.tsx:12 | after a scroll the flag is true exactly when the offset exceeds 50 (50 gives false, 51 true), and the menu is untouched |
| `Nav.MouseDownStep` | src/component/Nav.tsx:19-25 | with the menu open, a mousedown outside it closes it and one inside it leaves it open; with it closed, no mousedown changes anything; the scroll flag is untouched |
| `Nav.LinkClickCloses` | src/component/Nav.tsx:34-38 | after any history ending in a link click the menu is closed, whether or not the target exists |
| `Nav.ToggleTwice` | src/component/Nav.tsx:85 | two toggles give back the state before |
| `Nav.MenuFollowsToggleParity` | src/component/Nav.tsx:85 | while no link is clicked and no mousedown lands outside the menu, the menu is open exactly when it started open or was toggled an odd number of times, but not both |
| `Nav.MenuIgnoresScrolling` | src/component/Nav.tsx:12 | the menu flag after any history equals the menu flag after the same history with the scroll events removed |
| `Nav.ScrolledIsLastScroll` | src/component/Nav.tsx:12 | the scroll flag after any history depends on the last scroll offset only, and on the initial flag if there was no scroll |
| `Nav.HamburgerAsWrittenNeverCloses` | src/component/Nav.tsx:19-25 | a press on the hamburger (a mousedown outside the menu, then the toggle click, assuming the click is delivered) always leaves the menu open (see Findings) |
| `Nav.HamburgerPressFlips` | src/component/Nav.tsx:85-88 | corrected hamburger press: it flips the menu, closing an open one, and leaves the scroll flag alone |
| `Nav.NavMenu.constructor` | src/component/Nav.tsx:6-15 | on mount the bar is unscrolled with the menu closed; the scroll listener is registered and the outside-click listener is not |
| `Nav.NavMenu.OnScroll` | src/component/Nav.tsx:12 | the scroll handler sets the flag to "offset > 50" and changes nothing else |
| `Nav.NavMenu.SyncOutsideListener` | src/component/Nav.tsx:24-25 | re-running the outside-click effect leaves the listener registered exactly when the menu is open |
| `Nav.NavMenu.Toggle` | src/component/Nav.tsx:85 | the hamburger's click flips the menu and re-syncs the outside-click listener |
| `Nav.NavMenu.MouseDown` | src/component/Nav.tsx:19-23 | only the registered listener reacts; it closes the menu for a target outside it |
| `Nav.NavMenu.LinkClick` | src/component/Nav.tsx:34-38 | a link click closes the menu and removes the outside-click listener; the page scrolls exactly when the target exists |
| `Nav.NavMenu.PressHamburgerAsWritten` | src/component/Nav.tsx:19-26 | the hamburger press as wired (its mousedown, then its click, assuming the click is delivered) leaves the menu open whatever it was before |
| `Nav.NavMenu.PressHamburger` | src/component/Nav.tsx:85-88 | the corrected hamburger press flips the menu |
| `Nav.NavMenu.Unmount` | src/component/Nav.tsx:11-26 | unmounting removes both the scroll and the outside-click listener |
| `ContactForm.Render` | src/component/ContactForm.tsx:78-97 | the submit button is disabled and reads "Sending..." exactly while loading, and reads "Send Message" otherwise; at most one message shows; the success message shows exactly on success, the error message exactly on error, and none while the status is blank |
| `ContactForm.ContactForm.constructor` | src/component/ContactForm.tsx:7-8 | initially not loading, status blank, inputs empty, nothing sent |
| `ContactForm.ContactForm.Edit` | src/component/ContactForm.tsx:51-76 | typing changes the inputs only |
| `ContactForm.ContactForm.Submit` | src/component/ContactForm.tsx:10-23 | with no form element nothing changes and nothing is sent; otherwise loading starts, the status is cleared and exactly one request carrying the current inputs is sent |
| `ContactForm.ContactForm.OnSuccess` | src/component/ContactForm.tsx:25-29 | on delivery the status becomes success, loading stops and the inputs are cleared |
| `ContactForm.ContactForm.OnFailure` | src/component/ContactForm.tsx:30-33 | on failure the status becomes error, loading stops and the inputs are kept |
| `ContactForm.ContactForm.View` | src/component/ContactForm.tsx:78-97 | "Sending..." is never shown together with a status message |
| `ContactForm.SubmitAndSettle` | src/component/ContactForm.tsx:10-33 | one submission of filled inputs sends exactly those inputs once, then ends idle with the success message and cleared inputs, or with the error message and the inputs kept |

## Left out

- Wall-clock time is not modelled: the 80 ms typing interval and all animation durations and easing. Delays are integer tenths of a second, so the floating-point products (`index * 0.2`, `0.3 * i`) are not modelled.
- The email provider's network call and its three configured credentials are not modelled (`src/component/ContactForm.tsx:17-23`). Nor is the logging of those credentials (`src/component/ContactForm.tsx:36-40`). A request is recorded in `sent`, and the provider's answer is a call of `OnSuccess` or `OnFailure`.
- The inputs' `required` validation is done by the browser before the submit handler runs, so it is not modelled. The handler itself checks no fields.
- The browser APIs are abstracted as parameters: `window.scrollY`, the listeners, `menuRef.contains`, `document.querySelector`/`scrollIntoView` and `form.reset()`. The menu is assumed mounted while open, so the `menuRef.current` null guard plays no part.
- Nav.NavMenu.OnScroll: the offset is an `int`. The browser's offset can be fractional, and fractional offsets are not modelled.
- ContactForm.ContactForm.Submit: the handler does not check `loading`. Only the disabled button prevents a second submission, so the model allows it and counts unsettled requests in `pending`.
- ContactForm.ContactForm.OnSuccess: the form is assumed still mounted when the callback arrives. The code's `formRef.current?.reset()` skips the reset otherwise.
- Hero.Typewriter: the restart when the name or role changes (`src/sections/Hero.tsx:48-59`) is not modelled. On a restart the old interval is cleared and new ticks count from `i = 0`. `displayedText` keeps its old value until the first new tick. `typingDone` is only ever set to true (`src/sections/Hero.tsx:55`) and never reset, so after a restart the description, buttons and icons stay visible while the new text types.
- Hero.Typewriter: the clearing of the interval on unmount (`src/sections/Hero.tsx:58`) is not modelled. The model has no unmount for the banner, and its timer stops only after the last character.
- Hero.FullText: JavaScript counts a string's length and slices it in UTF-16 code units, while Dafny counts Unicode scalar values. They differ only for names or roles with characters outside the Basic Multilingual Plane, which the model does not cover.
- ProjectCard.TechBadge: the icon table is a plain object, so a technology named after an inherited object member (such as "constructor") would find that member rather than fall back to text. The model uses a map lookup.
- React's rendering, its keys (duplicate technology names would repeat a key), CSS classes, images and icons are not modelled.
- The viewport triggers of the scroll animations are not modelled: they belong to the animation library.
- The catalog's descriptions (prose) are left empty in `Projects.Catalog`. Images are named by their asset files.
- `src/sections/About.tsx`, `src/sections/Contact.tsx`, `src/component/Footer.tsx` and `src/App.tsx` hold static data and composition only, apart from the name and role that `Hero.ShippedNameHighlight` and `Hero.ShippedNameShownInFull` use. They are not modelled.

## Findings

| source | as written | input that shows it | evidently intended | confidence | as-written member | corrected member |
|---|---|---|---|---|---|---|
| src/sections/Hero.tsx:94-96 | the title shows only pieces 0 and 1 of `displayedText.split(name)` | name "Sam", role "Sam Dev": the typed text "Hey, I'm Sam âœ¨" + line break + "Sam Dev" renders without its second line | the whole typed text, with the name highlighted once | not executed; latent for the shipped name and role (`Hero.ShippedNameShownInFull`) | `Hero.HighlightAsWrittenDropsText` | `Hero.RenderCorrected` |
| src/sections/Hero.tsx:92-96 | an empty name is "included" in every text, and `split("")` cuts the text into single characters | name "": from the third tick on, the title shows only "He" | the typed text shown in full | not executed; latent for the shipped name (`Hero.ShippedNameShownInFull`) | `Hero.HighlightAsWrittenEmptyName` | `Hero.RenderCorrected` |
| src/component/Nav.tsx:19-25 | the outside-click listener treats a mousedown on the hamburger as outside the menu | menu open, press the X: the mousedown closes the menu and the click toggles it open again | the X button closes the menu | not executed; the button is only as large as its icon, and the mousedown's re-render replaces the X icon with the Menu icon (`src/component/Nav.tsx:88`), so whether the browser still delivers the click is up to the browser; the model assumes the click arrives | `Nav.HamburgerAsWrittenNeverCloses` | `Nav.NavMenu.PressHamburger` |

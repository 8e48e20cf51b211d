# Documentation site: section loader and navigation, modelled in Dafny

This project models the client-side behaviour of a static documentation site, in two
modules that follow its two scripts.

- `ContentLoading` (content_loader.dfy) models `docs/js/content-loader.js`. The loader holds a fixed
  registry of seven section keys and fragment paths. Each fetch outcome becomes one piece:
  `<section id="KEY">BODY</section>` when the fetch succeeded, or the fixed placeholder
  `<section id="KEY"><p>Error loading section content.</p></section>` when the response was not
  ok or the fetch threw. The pieces are joined with `"\n"` in registry order. `loadContent`
  writes the container with the assembled page, or with
  `<p>Error loading content. Please try again later.</p>` when assembly rejected. It then
  calls the syntax highlighter if one is present. The pure part is a set of functions
  (`Piece`, `Pieces`, `Join`, `Assemble`) with lemmas. `loadContent` is a method of the
  class `ContentLoader`, which holds the registry and the container.
- `Navigation` (navigation.dfy) models `docs/js/main.js`. The scroll-spy rule picks the last section,
  in document order, whose top minus 100 is at most the scroll offset. The highlighter then
  marks active exactly the navigation links whose href is `"#"` followed by that id. The mobile
  navigation panel is a state machine, given as a pure `Step` function over events: toggle
  click, outside click, anchor click, resize, and resize timer. The class `Page` holds the
  state the handlers change in place: the sidebar's active flag, the toggle glyph, the pending
  resize timer, the requested scroll target, and an array with the `active` class of each
  navigation link. Each handler is a method proved against `Step`, or against `ActiveFlags`
  and `Spied` for the link array.
- `Wrappers` (wrappers.dfy) holds the `Option` type.

Browser inputs are parameters:
- Each section's fetch outcome is a `Fetched` value: `Body(text)`, `NotOk` or `Threw`. The
  outcomes are given in registry order, which is the order `Promise.all` reports them in.
- Widths, scroll offsets and element tops are integers.
- What a click hit is given as booleans or as an index.
- What `querySelector` found is an `Option`.
- Whether `window.Prism` exists, and whether its `highlightAll` throws, is a `Highlighter` value.

A missing `id` attribute is modelled as `None`. A template literal renders it as `"null"`, so
the link it selects is the one whose href is `#null`. The initial `currentSection` is `""`.

The container can be written twice in one call of `loadContent`. The assignment at
content-loader.js:18 and the call of `initializeCodeBlocks()` at :19 are both inside the `try`
block. When the highlighter throws, the `catch` block at :20-22 writes the container again, with
the generic error message. `ContentLoader.LoadContent` models this: one write normally, two when
the highlighter throws.

The glyph mirrors the panel (the close glyph exactly when the sidebar is active) from the
moment the sidebar is first inactive. The toggle button is created with the bars glyph
(main.js:5), whatever class the sidebar was served with. If the sidebar is served active, the
glyph does not mirror it until the first toggle click, which restores the mirror from any
state (`ToggleFlips`), or until a handler closes the panel. From then on every handler keeps it
(`RunKeepsIconMirror`).

## Model

| member | source | states |
|---|---|---|
| `ContentLoading.RegistryShape` | docs/js/content-loader.js:4-12 | the registry has seven entries with pairwise distinct keys, and each path is an `.html` file under `sections/` |
| `ContentLoading.ContentLoader.constructor` | docs/js/content-loader.js:2-13 | a new loader holds exactly the fixed registry; no write or highlight has happened yet |
| `ContentLoading.Piece` | docs/js/content-loader.js:28-36 | the piece one entry contributes; its contract is given by `PieceContent`, `UnwrapWrap` and `WrapUnwrap` |
| `ContentLoading.PieceContent` | docs/js/content-loader.js:28-36 | each entry's piece is a section labelled with its key; it holds the body unchanged on success and the fixed placeholder after a non-ok response or a throw, spelled out literally |
| `ContentLoading.UnwrapWrap` | docs/js/content-loader.js:32 | reading back a section labelled with a key gives exactly the content it wrapped |
| `ContentLoading.WrapUnwrap` | docs/js/content-loader.js:32 | any string that reads back as a labelled section is exactly that section around its content |
| `ContentLoading.Pieces` | docs/js/content-loader.js:27-37 | there is one piece per registry entry; piece i is the piece of entry i for outcome i, whatever the other outcomes are |
| `ContentLoading.PiecesIsolation` | docs/js/content-loader.js:27-37 | changing one entry's outcome changes that entry's piece and leaves every other piece identical |
| `ContentLoading.Join` | docs/js/content-loader.js:40 | the joined length is the sum of the piece lengths plus one separator between each pair; joining no pieces gives "" |
| `ContentLoading.JoinAt` | docs/js/content-loader.js:40 | every piece appears unchanged at its offset, and exactly one newline follows each piece except the last |
| `ContentLoading.JoinSeparators` | docs/js/content-loader.js:40 | n pieces joined contain the pieces' own newlines plus exactly n - 1 more |
| `ContentLoading.JoinDetermined` | docs/js/content-loader.js:40 | any string with the joined length, every piece at its offset and a newline after every piece but the last is the joined string, so `Join`, `JoinAt` and this lemma characterise the join completely |
| `ContentLoading.Assemble` | docs/js/content-loader.js:26-41 | the page `loadAllSections` resolves to; its contract is given by `SectionAt`, `AssembleEnds`, `PiecesIsolation` and `JoinSeparators` |
| `ContentLoading.SectionAt` | docs/js/content-loader.js:26-41 | the assembled page holds entry i's piece at the place given by registry order |
| `ContentLoading.AssembleEnds` | docs/js/content-loader.js:39-40 | with at least one entry, the page starts with `<` and ends with `>`, so there is no leading or trailing newline |
| `ContentLoading.TwoSectionsLoaded` | docs/js/content-loader.js:26-41 | two loaded sections assemble to the first section, a newline, then the second |
| `ContentLoading.SecondSectionMissing` | docs/js/content-loader.js:29-35 | a 404 on the second entry gives its placeholder, and the first section is unaffected |
| `ContentLoading.ContentLoader.InitializeCodeBlocks` | docs/js/content-loader.js:43-48 | the highlighter is called once when present and not at all when absent; it reports whether the call threw |
| `ContentLoading.ContentLoader.LoadContent` | docs/js/content-loader.js:15-24 | the container ends up holding the assembled page on success, or the generic error message if assembly rejected or the highlighter threw; it is written once, or twice when the highlighter threw; the highlighter runs only on the success path |
| `Navigation.Spied` | docs/js/main.js:67-77 | the current section is either the initial "" or the id of a section the page has scrolled past; `SpiedNonePassed` and `SpiedLastPassed` pin down which |
| `Navigation.SpiedNonePassed` | docs/js/main.js:66-77 | when no section has been scrolled past, the current section is "" |
| `Navigation.SpiedLastPassed` | docs/js/main.js:66-77 | when section k has been scrolled past and no later section has, the current section is k's id |
| `Navigation.SpiedExample` | docs/js/main.js:66-77 | with sections at 0, 500 and 1000 scrolled to 550, the second section is current |
| `Navigation.CurrentSection` | docs/js/main.js:67-77 | the loop over the sections in document order ends with the section `Spied` selects |
| `Navigation.ActiveLinkUnique` | docs/js/main.js:79-84 | with distinct hrefs at most one link is active, and one is active exactly when some link points at the current section |
| `Navigation.ScrollExample` | docs/js/main.js:66-84 | scrolled to 550, only the link to the second section is active |
| `Navigation.Step` | docs/js/main.js:12-119 | how each handler moves the panel; its contract is given by `ToggleFlips`, `DocumentClickCloses`, `AnchorClickCloses`, `StepKeepsIconMirror` and `ResizeBurst` |
| `Navigation.Run` | docs/js/main.js:11-120 | the panel after a sequence of events handled in order; `RunKeepsIconMirror`, `ResizesOnlyArm` and `ResizeBurst` state what it keeps |
| `Navigation.ToggleFlips` | docs/js/main.js:12-17 | a toggle click flips the panel and, from any state, leaves the glyph as close exactly when the panel is open |
| `Navigation.DocumentClickCloses` | docs/js/main.js:20-28 | an outside click changes the panel exactly when the width is at most 768, the target is in neither the sidebar nor the toggle, and the panel is open; the change closes it |
| `Navigation.AnchorClickCloses` | docs/js/main.js:32-59 | an anchor click whose target does not exist changes nothing; otherwise the panel stays open only if it was open and the width is above 768 |
| `Navigation.StepKeepsIconMirror` | docs/js/main.js:11-120 | every handler keeps the glyph as close exactly when the panel is open |
| `Navigation.RunKeepsIconMirror` | docs/js/main.js:11-120 | any sequence of events keeps the glyph as close exactly when the panel is open |
| `Navigation.ResizesOnlyArm` | docs/js/main.js:112-114 | any burst of resize events leaves exactly one pending timer and changes nothing else |
| `Navigation.ResizeBurst` | docs/js/main.js:110-120 | a burst of resizes then the timer acts once: it closes the panel exactly when the width read at firing is above 768, and a later firing does nothing |
| `Navigation.Page.constructor` | docs/js/main.js:1-88 | at load the toggle shows bars, no resize is pending, the glyph mirrors the panel when the sidebar was served inactive, and the links are highlighted for the initial scroll offset |
| `Navigation.Page.HighlightActiveSection` | docs/js/main.js:66-85 | the link array is left with exactly the links whose href is "#" followed by the section `Spied` selects marked active, and all others inactive |
| `Navigation.Page.ToggleClick` | docs/js/main.js:12-17 | the panel state moves as `Step` does for a toggle click |
| `Navigation.Page.DocumentClick` | docs/js/main.js:20-28 | the panel state moves as `Step` does for an outside click |
| `Navigation.Page.AnchorClick` | docs/js/main.js:32-59 | with no target nothing changes; otherwise the scroll goes to element top plus page offset minus 20, only the clicked navigation link is active, and the panel moves as `Step` does |
| `Navigation.Page.Resize` | docs/js/main.js:112-114 | a resize cancels any pending timer and arms a new one |
| `Navigation.Page.ResizeTimerFires` | docs/js/main.js:114-119 | the pending timer closes the panel when the width is above 768 and is then cleared |

## Left out

- Fetching: `fetch`, `response.text()` and the concurrency of `Promise.all` are not modelled. Each entry's outcome is an input, in registry order.
- DOM querying and geometry are not modelled. `querySelector`, `getBoundingClientRect`, `offsetTop`, `pageYOffset` and `innerWidth` become integer or Option parameters. An href that is not a valid selector (`"#"` alone) makes `querySelector` throw. It is modelled like a missing target: nothing changes.
- `sectionHeight` is read but never used, so it is not modelled.
- Smooth scrolling is not modelled. `scrollRequest` records the target passed to `scrollTo`. The browser's clamping and animation are left out.
- Prism is not modelled internally. Only its calls and whether a call throws are modelled. Its rewriting of the container's markup is not.
- `console.error` logging is not modelled.
- The copy-to-clipboard button is not modelled. It is an asynchronous clipboard write plus a 2000 ms glyph revert, with no data logic.
- Timer semantics are not modelled. The 250 ms resize debounce becomes "a pending timer that each resize replaces". The timer firing is a separate event.
- The glyph HTML strings become the two-value `Icon` type.
- Load-time ordering is not modelled. `main.js` captures the `section` elements and the anchors once, when the DOM is loaded. The loader injects its sections later. The scroll-spy and anchor handlers can therefore miss loaded sections. `Page` takes the captured lists as given.
- Event bubbling and scroll events are not modelled. An anchor click also reaches the document click handler, and its `scrollTo` raises scroll events that re-run the highlighter. Each handler is modelled on its own.
- Navigation.Page.AnchorClick: tracks the `active` class only for navigation links. When the clicked anchor is not one of them, its own `active` class is not modelled.
- A missing content container (`getElementById` returning null) is not modelled. The container is always present.
- ContentLoading.Pieces: "exactly one section per entry" is stated by position (`JoinAt`, `SectionAt`), not by counting `<section` tags. Fragment bodies are arbitrary HTML and may contain such tags themselves.

# Jelajah Jakarta: tab session store, content pane and gallery lightbox

Jelajah Jakarta is a single-page tourism guide that imitates a browser:
topical pages (Beranda, Wisata, Kuliner, Transportasi, Sejarah, Galeri) open
as tabs in the page's own tab strip. This project models three parts of it
in Dafny and proves properties about them:

- **The tab session store** (`tab_store.dfy`, module `TabStore`). It holds
  the ordered tab list and the active tab id. It has four transitions:
  `initializeTabs`, `addNewTab`, `switchTab` and `closeTab`. Each transition
  is a function on a `Snapshot` of the store's data. The class `TabSession`
  keeps that data in mutable fields, and each of its methods is proved to
  perform the matching function. A counter field supplies fresh ids in
  place of `generateId`.
- **The content pane** (`tab_content.dfy`, module `TabContent`). It decides
  which tab is shown, which page is rendered and what title the breadcrumb
  shows. It falls back to the first tab, and then to the home page.
- **The gallery lightbox** (`gallery.dfy`, module `Gallery`). It selects one
  of sixteen images, or none, and steps to the next or previous image with
  wrap-around. Pure `Next`/`Prev` functions carry the round-trip lemmas. The
  class `Lightbox` holds `selectedImage`.

`pages.dfy` gives the page components and icons as opaque tags.
`wrappers.dfy` gives `Option`, which stands for `null`/`undefined`.

The main facts proved:

- ids stay distinct under every transition that draws a fresh id;
- once a tab exists, the store never goes back to zero tabs;
- after `closeTab` of the active tab, its left neighbour becomes active (or
  the next tab, if it was first);
- the `?? remaining[0]` fallback in `closeTab` never picks the tab;
- `switchTab` to an unknown id leaves the active id dangling, and the content
  pane then shows the first tab;
- `prevImage` and `nextImage` undo each other, and sixteen `nextImage` steps
  come full circle.

The code's behaviour is modelled as written. `switchTab` is not guarded.
Closing the dangling active id itself (an id no tab carries) activates the
first tab; closing any other tab leaves a dangling active id dangling. When
every tab carries the id being closed and that id is active, `closeTab` throws a
`TypeError` on `remaining[0].id`. Only duplicate ids can cause that, so it is
modelled as the `Throws` outcome of `Close`. `CloseKeepsInvariants` proves it
cannot happen while ids are distinct.

## Model

| member | source | states |
|---|---|---|
| TabStore.FindIndex | src/store/tabStore.ts:59 | `findIndex`: -1 exactly when no tab carries the id, otherwise the first position holding it |
| TabStore.Without | src/store/tabStore.ts:60 | `filter` never grows the list and is the identity when no tab carries the id |
| TabStore.WithoutMembers | src/store/tabStore.ts:60 | a tab is in the filtered list if and only if it is in the list and does not carry the id |
| TabStore.WithoutCounts | src/store/tabStore.ts:60 | filtering drops every copy of a matching tab and keeps every copy of every other tab |
| TabStore.WithoutRemovesAt | src/store/tabStore.ts:60 | with the id at exactly one position `k`, the result is the list with position `k` cut out, the rest in their original order |
| TabStore.MaxZero | src/store/tabStore.ts:63 | `Math.max(0, k)` is at least `k` and is either 0 or `k` |
| TabStore.Initialize | src/store/tabStore.ts:38-49 | on an empty store: exactly one tab, carrying the fresh id, titled "Beranda", showing the home page with the home icon, and active; on a non-empty store: no change; always leaves at least one tab, keeps ids distinct, and leaves the active id naming a tab if the store was valid |
| TabStore.InitializeIdempotent | src/store/tabStore.ts:38-49 | initialising twice equals initialising once, whatever id the second call would draw |
| TabStore.AddTab | src/store/tabStore.ts:50-54 | appends exactly one tab, built from the arguments, after the unchanged earlier tabs; the active id is the last tab's id; with a fresh id, ids stay distinct |
| TabStore.Switch | src/store/tabStore.ts:55 | the tab list is unchanged and the active id is the argument; the active id names a tab if and only if some tab carries the argument |
| TabStore.SwitchMayDangle | src/store/tabStore.ts:55 | switching to an unknown id breaks "the active id names a tab" |
| TabStore.Close | src/store/tabStore.ts:56-68 | no-op with at most one tab; throws if and only if there is more than one tab, the id is active, and every tab carries it |
| TabStore.CloseActiveTab | src/store/tabStore.ts:59-65 | closing the active tab at position `k` (distinct ids) cuts it out and activates the tab originally at `k-1`, or at 1 when `k = 0` |
| TabStore.CloseInactiveTab | src/store/tabStore.ts:59-62 | closing a tab that is not active cuts it out and leaves the active id unchanged |
| TabStore.CloseUnknownId | src/store/tabStore.ts:59-66 | closing an id no tab carries keeps every tab; the active id is unchanged unless it equals that id, in which case `idx = -1` and the first tab becomes active |
| TabStore.CloseNeighbourInRange | src/store/tabStore.ts:63-64 | whenever any tab remains, `max(0, idx-1)` indexes a remaining tab, so the `?? remaining[0].id` fallback never picks the tab |
| TabStore.ClosePresentId | src/store/tabStore.ts:56-68 | closing an id carried by the tab at `k` (distinct ids, more than one tab) never throws, cuts exactly position `k`, keeps ids distinct, and leaves the active id naming a tab if it did before |
| TabStore.CloseKeepsInvariants | src/store/tabStore.ts:56-68 | with distinct ids: never throws, ids stay distinct, a non-empty store stays non-empty, the count drops by one exactly when the id is present among more than one tab, and a valid active id stays valid |
| TabStore.TabSession.constructor | src/store/tabStore.ts:35-37 | the store starts with no tabs and a null active id |
| TabStore.TabSession.GenerateId | src/store/tabStore.ts:28-33 | returns an id no tab carries |
| TabStore.TabSession.InitializeTabs | src/store/tabStore.ts:38-49 | the new state is `Initialize` of the old one; nothing changes (no id drawn) when tabs exist |
| TabStore.TabSession.AddNewTab | src/store/tabStore.ts:50-54 | the new state is `AddTab` of the old one with a freshly drawn id; ids stay distinct |
| TabStore.TabSession.SwitchTab | src/store/tabStore.ts:55 | the new state is `Switch` of the old one |
| TabStore.TabSession.CloseTab | src/store/tabStore.ts:56-68 | the new state is the `Closed` outcome of `Close` on the old one; ids stay distinct |
| TabContent.Find | src/components/ui/TabContent.tsx:11 | `find` returns a tab exactly when some tab carries the active id, and the tab it returns carries that id |
| TabContent.FindAgreesWithFindIndex | src/components/ui/TabContent.tsx:11 | `find` returns the tab at the position `findIndex` reports, i.e. the first match |
| TabContent.Displayed | src/components/ui/TabContent.tsx:11 | no tab is shown only when there are no tabs; a matching tab is shown when one exists; otherwise the first tab is shown |
| TabContent.DisplayedIsActive | src/components/ui/TabContent.tsx:11 | with distinct ids, the tab carrying the active id is exactly the tab shown |
| TabContent.RenderedPage | src/components/ui/TabContent.tsx:11-12 | the home page with no tabs; otherwise exactly the page of the displayed tab (the first match, or `tabs[0]` when no tab carries the active id), which is the active tab's page when the active id names a tab |
| TabContent.BreadcrumbTitle | src/components/ui/TabContent.tsx:31 | never empty; "Beranda" when no tab is shown or its title is empty, otherwise the shown tab's title |
| TabContent.ShowsATabOnceInitialised | src/components/ui/TabContent.tsx:11 | after initialisation the pane always shows a tab |
| TabContent.AddedTabIsDisplayed | src/components/ui/TabContent.tsx:11-12 | after adding a tab with a fresh id, that tab is shown and its page is rendered |
| TabContent.DanglingShowsFirst | src/components/ui/TabContent.tsx:11-12 | after switching to an unknown id, the first tab is shown and its page is rendered |
| Gallery.Next | src/features/jakarta/GaleriPage.tsx:30-34 | nothing when no image is selected; otherwise an index in range, one more than the old one, with the last image wrapping to the first |
| Gallery.Prev | src/features/jakarta/GaleriPage.tsx:36-40 | nothing when no image is selected; otherwise one less, with the first image wrapping to the last, and in range for an in-range selection |
| Gallery.PrevAfterNext | src/features/jakarta/GaleriPage.tsx:32-38 | `prevImage` after `nextImage` returns to the original selection |
| Gallery.NextAfterPrev | src/features/jakarta/GaleriPage.tsx:32-38 | `nextImage` after `prevImage` returns to the original selection |
| Gallery.NextTimesAdvances | src/features/jakarta/GaleriPage.tsx:32 | `k` steps forward from `i` land on `(i + k) mod 16` |
| Gallery.NextFullCircle | src/features/jakarta/GaleriPage.tsx:11-32 | as many `nextImage` steps as there are images return to the start |
| Gallery.Lightbox.constructor | src/features/jakarta/GaleriPage.tsx:9 | the lightbox starts closed |
| Gallery.Lightbox.SelectImage | src/features/jakarta/GaleriPage.tsx:75 | clicking grid image `i` selects `i` |
| Gallery.Lightbox.CloseLightbox | src/features/jakarta/GaleriPage.tsx:102-114 | the backdrop and the close button clear the selection |
| Gallery.Lightbox.NextImage | src/features/jakarta/GaleriPage.tsx:30-34 | the selection becomes `Next` of the old one and stays in range |
| Gallery.Lightbox.PrevImage | src/features/jakarta/GaleriPage.tsx:36-40 | the selection becomes `Prev` of the old one and stays in range |
| Gallery.Lightbox.Shown | src/features/jakarta/GaleriPage.tsx:137-148 | the open image is the selected entry of the list; the counter reads `selectedImage + 1` of 16, a value in `1..16` |

## Left out

- `generateId` internals (`crypto.randomUUID`, `Date.now`, `Math.random`) are randomness and foreign calls. Ids are naturals from a counter, so a fresh id is guaranteed rather than highly likely. `TabId` is therefore `nat`, not a string.
- Zustand's `create`/`set`/`get`, React hooks, `useEffect` wiring and the module-level singleton store are framework plumbing. The class `TabSession` stands for the single store instance. `src/components/MultiTabApp.tsx` only calls `initializeTabs` on mount.
- The page components are static content. The store and the pane see them only as the tags in `Pages.Page`, and icons as the tags in `Pages.Icon`.
- Rendering of any kind is left out: JSX layout, gsap and framer-motion animations, image loading, sound cues, the tab bar and the flowing menu, the custom cursor and the Hyperspeed background.
- TabStore.Close: when `closeTab` throws, the model returns `Throws` and says nothing more. In the running page, the exception leaves the store unchanged and propagates into the React event handler; that propagation is not modelled.
- Gallery.Lightbox.SelectImage: requires an index below 16 because the grid only renders those 16 indices.

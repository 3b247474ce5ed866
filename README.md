# celo — a Dafny model of the component loaders

celo loads web components on demand. A `MutationObserver` watches the
document. When an element whose tag name has a hyphen appears, the loader
fetches `<componentsPath>/<tag>.html` once per tag. It turns the text into
DOM nodes, re-creates the script elements so that they run, and appends the
result to a hidden container `div`. The repository holds three generations
of this loader:

- `celo.js` (module `CeloScript`) looks only at each record's first added
  node. It records tags through a check-and-push `isNew`, splits the fetched
  text into markup and one script block, and appends both to `#_celo`.
- `webcom.js` (module `Webcom`) deduplicates tags by their raw `tagName`. It
  reads a `localStorage` cache keyed `w-c-<tag>` and always fetches the
  tag's file. It stores the text only when the response is `ok`, renders
  the cached text, and appends to `#_webcom`.
- `celo.mjs` (module `CeloModule`) reads `window.celoConfig`. It walks added
  subtrees depth-first and records each new tag after its descendants. It
  shares the list of loaded tags with a wrapped `customElements.define`,
  sets up an idempotent container, and re-inserts pre-existing elements so
  that they are observed. It also rebuilds every script of a fetched
  fragment: a new script with the same text is appended to the old
  script's parent, and then the old script is removed.

Shared pieces:

- `Markup` holds `splitMarkup`, the same code in `celo.js` and `webcom.js`.
  It models the regular expression `/<script[\S\s]*?>([\S\s]*?)<\/script>/i`
  as the least match in backtracking order, and `replace` as a cut at the
  first exact occurrence.
- `Text` holds ASCII lowercasing and substring search.
- `Dom` holds the DOM pieces the loaders touch: a node tree, a response, a
  parent's child list and a document fragment.
- `Base` holds `Option`, `Result` and `NoDuplicates`.

The asynchronous chains are modelled as their effect once they have
settled. In `celo.js` and `celo.mjs` the observer callback records the fetch
it starts, and a separate `Render` method gives the chain's outcome for a
given response. `webcom.js` runs its chains to completion one record at a
time, with the network given as a function from URL to response.

Two behaviours of the code are worth stating directly:

- `isNew` in `celo.js` returns `false` for a tag already in the list. For a
  new tag it pushes the tag and returns the list's new length, which is
  truthy. `CeloScript.Loader.IsNew` states this.
- The splitter throws when the text has no script block (`matches` is
  `null`); `Markup.SplitMarkup` returns `Failure(NoScriptBlock)`. It also
  throws on `undefined` text, which is what a non-`ok` response yields in
  `celo.js` and what a cache miss yields in `webcom.js`;
  `Markup.SplitMarkup` returns `Failure(UndefinedMarkup)`. So in `webcom.js`
  a component renders only when it is already in the cache.

## Model

| member | source | states |
|---|---|---|
| Text.LowerChar | celo.js:20 | `toLowerCase` on one character: A–Z shift by 32, everything else is kept, and the result is never upper case |
| Text.Lower | celo.js:43 | lowercasing keeps the length and lowers every character |
| Text.HyphenSurvivesLowering | celo.js:20-24 | a tag has a hyphen after `toLowerCase` exactly when it had one before |
| Text.IndexOf | celo.js:63-64 | the leftmost occurrence at or after `from` (exact or case-insensitive); `None` exactly when there is none |
| Markup.FindMatch | celo.js:63 | the match `String.prototype.match` reports is the least (start, `>`, `</script>`) triple in backtracking order; `None` exactly when no match exists anywhere |
| Markup.RemoveFirst | celo.js:64 | `replace` with a string pattern leaves the text alone when the pattern does not occur; otherwise it cuts out exactly the first occurrence, so the text before it and the text after it are kept |
| Markup.MatchedTextFirstOccurs | celo.js:63-64 | the matched text occurs nowhere before the match, so `replace(matches[0], "")` cuts at the match itself |
| Markup.CopyIsMatch | celo.js:63 | any other exact occurrence of the matched text is itself a match of the pattern, at its own position |
| Markup.SplitMarkup | celo.js:62-67 | `undefined` text throws, and given text never fails for that reason; text throws for lack of a script block exactly when no match exists; otherwise the script is capture group 1 and the markup is the text with the whole match removed |
| Markup.Cut | celo.js:64-65 | removing the first occurrence of the matched text leaves the text before the match followed by the text after it; the script is the body between the opening tag and `</script>` |
| Markup.SplitReconstructs | celo.js:62-67 | putting the opening tag, the script and the closing tag back into the markup at the match's start gives the original text |
| Markup.SplitTakesOnlyFirstBlock | celo.js:63-65 | no `<script` in any case comes before the cut, the script holds no `</script>`, and the text after the block is kept verbatim |
| Markup.NoOpenBefore | celo.js:63 | no `<script` (in any case) starts before the reported match, since it would start an earlier match |
| Markup.NoCloseInside | celo.js:63 | the lazy body of the reported match holds no `</script>` (in any case) |
| Dom.FirstAdded | celo.js:17 | a record offers a node exactly when its `addedNodes` is not empty |
| Dom.ComponentUrlInjective | celo.mjs:64 | two component URLs under one path are equal exactly when the tags are |
| Dom.ReinsertRestores | celo.mjs:116-124 | taking a child out and putting it back before its old next sibling, or at the end, restores the child list |
| Dom.ParentNode.NextSibling | celo.mjs:118 | `nextSibling` is the following child, and `null` exactly for the last child |
| Dom.ParentNode.RemoveChild | celo.mjs:119 | `removeChild` takes the child out of the list, and the list stays free of duplicates |
| Dom.ParentNode.InsertBefore | celo.mjs:121 | `insertBefore` puts the node just before the reference child |
| Dom.ParentNode.AppendChild | celo.mjs:123 | `appendChild` puts the node at the end |
| Dom.Fragment.constructor | celo.mjs:78 | a new fragment has an empty list of its own; given parsed lists whose identities are unique, never the fragment's own key and below the counter, the fragment is valid |
| Dom.Fragment.CreateScript | celo.mjs:92-93 | a new script element gets the counter's identity and the given text; no child of any list carries that identity, and the fragment stays valid |
| Dom.Fragment.AppendChild | celo.mjs:95 | `appendChild` adds the node at the end of that element's list, and nothing else changes; a node not yet in that list keeps the fragment valid |
| Dom.Fragment.RemoveChild | celo.mjs:96 | `removeChild` takes the node out of that element's list, and nothing else changes; the fragment stays valid |
| Dom.RemoveIdSubset | celo.mjs:96 | `removeChild` leaves only children that were there |
| Dom.RemoveIdKeepsOthers | celo.mjs:96 | `removeChild` keeps every child with another identity |
| Dom.RemoveIdUnique | celo.mjs:96 | `removeChild` keeps a list's identities unique |
| CeloScript.Urls | celo.js:51 | each loaded tag's request is `/components/<tag>.html`, in order |
| CeloScript.UrlsNoDuplicates | celo.js:3-4 | distinct tags give distinct requests |
| CeloScript.Observed | celo.js:17-20 | a record offers a lowercase tag only for an `HTMLElement` with a non-empty `tagName` |
| CeloScript.CandidatesAreOffered | celo.js:19-24 | a tag is a candidate exactly when some record's first added node offers it with a hyphen |
| CeloScript.DiscoverKeepsList | celo.js:42-47 | the callback only appends to `loadedComponents`; the list stays lowercase and free of duplicates |
| CeloScript.DiscoverMembership | celo.js:15-32 | a tag is loaded after the callback exactly when it was loaded before or some record offered it |
| CeloScript.Loader.ParseRecord | celo.js:16-30 | one record: a `body` adds one container, a new hyphenated tag is appended to the list (`Offer`), and the fetches started stay exactly one per listed tag, in order; the hosted nodes are untouched |
| CeloScript.Loader.constructor | celo.js:4 | the list and the container start empty |
| CeloScript.Loader.IsNew | celo.js:42-47 | the result is truthy exactly when the lowercase tag was absent; then it is pushed and the new length returned, otherwise `false` is returned and nothing changes |
| CeloScript.Loader.SetUpContainer | celo.js:35-39 | every call appends one more container |
| CeloScript.Loader.ParseElements | celo.js:15-32 | the list becomes `Discover` of the records, one container is added per `body` record, and one fetch is started per new tag |
| CeloScript.Loader.AddMarkUp | celo.js:84-87 | the elements are appended exactly when a container exists |
| CeloScript.Loader.Render | celo.js:25-28 | the split markup and a fresh script are appended exactly when the response is `ok`, its text has a script block and a container exists; otherwise nothing changes |
| CeloScript.RequestedOnce | celo.js:3-4 | no component URL is requested twice |
| Webcom.GetKey | webcom.js:88-90 | the key is `w-c-` followed by the lowercase tag |
| Webcom.GetKeyIdentifiesTag | webcom.js:88-90 | two tags share a key exactly when they agree up to case |
| Webcom.CacheHitRendersStoredValue | webcom.js:27-34 | on a cache hit the stored text is split and appended |
| Webcom.CacheMissRendersNothing | webcom.js:27-35 | on a cache miss the chain throws and nothing is appended |
| Webcom.RunKeepsLoadedDistinct | webcom.js:14-15 | `loaded` only grows and never holds a tag name twice |
| Webcom.StepOnLoadedTag | webcom.js:14-19 | a hyphenated tag already in `loaded` changes nothing |
| Webcom.StepOnNewTag | webcom.js:14-19 | a new hyphenated tag is pushed as it is and creates no container |
| Webcom.RunStorageFrame | webcom.js:84 | storage changes only under the keys of tags loaded during the run |
| Webcom.Loader.constructor | webcom.js:1 | `loaded` and the container start empty, over the existing storage |
| Webcom.Loader.SaveComponent | webcom.js:92-94 | `setItem` stores the text under the key |
| Webcom.Loader.FetchComponentFromServer | webcom.js:75-86 | an `ok` response is saved under the element's key; any other outcome leaves storage alone |
| Webcom.Loader.CreateContainer | webcom.js:69-73 | every call appends one more container |
| Webcom.Loader.ParseWecom | webcom.js:24-59 | storage gets the fetched text, and the container gets what the cached text renders to |
| Webcom.Loader.ParseElements | webcom.js:10-22 | the state after the callback is `Run` of the records |
| Webcom.Loader.ParseRecord | webcom.js:11-20 | the state after one record is `Step` of the state before it |
| CeloModule.ConfigDefaults | celo.mjs:4-6 | a missing config, entry or empty entry gives `/components` or `_celo`; a non-empty entry is used as given |
| CeloModule.WalkNode | celo.mjs:22-30 | a walk over one node only appends to the list |
| CeloModule.WalkNodes | celo.mjs:23 | a walk over a node list only appends to the list |
| CeloModule.WalkNodeMembership | celo.mjs:25-30 | after a walk a tag is loaded exactly when it was before or it is a hyphenated tag reached through `HTMLElement`s |
| CeloModule.WalkNodesMembership | celo.mjs:23-30 | the same for a node list |
| CeloModule.WalkNodeAddsFresh | celo.mjs:29-33 | what a walk appends was not loaded before and is appended once |
| CeloModule.WalkNodesAddsFresh | celo.mjs:23-33 | the same for a node list |
| CeloModule.RecordedAfterDescendants | celo.mjs:25-33 | a new element's tag is recorded after every tag its subtree records |
| CeloModule.FirstNodes | celo.mjs:24 | at most one node is taken per record |
| CeloModule.FirstNodesMembership | celo.mjs:24 | a node is taken exactly when it is the first added node of some record |
| CeloModule.SetUpIdempotent | celo.mjs:44-50 | setting up twice is setting up once, never makes a second container, and a container exists afterwards exactly when one existed or the body does |
| CeloModule.Celo.constructor | celo.mjs:4-9 | the configuration is read, the list is empty, and the container is set up |
| CeloModule.Celo.IsNew | celo.mjs:53-55 | a hyphenated tag is new exactly when a walk over a childless `HTMLElement` with that tag would record it; a new tag has never been fetched |
| CeloModule.DefinedSkipped | celo.mjs:30 | a name the wrapped `define` recorded (celo.mjs:127-131) is never recorded, so never fetched, by a later walk |
| CeloModule.Celo.MarkDefined | celo.mjs:58-60 | the tag is appended as given, and a lowercase tag is no longer new |
| CeloModule.Celo.Define | celo.mjs:127-131 | the wrapped `define` appends its first argument as given, and a lowercase name is no longer new |
| CeloModule.Celo.InsertBody | celo.mjs:45 | once the document has a `body`, `setUpContainer` sees it |
| CeloModule.Celo.SetUpContainer | celo.mjs:44-50 | a container is created only when none exists and the body does |
| CeloModule.Celo.ParseNode | celo.mjs:25-34 | the list becomes `WalkNode` of it; a fetch is started for each tag gained, in order; the container is set up if anything was gained; no tag is fetched twice; for a childless hyphenated `HTMLElement` a fetch starts exactly when its tag was new |
| CeloModule.Celo.ParseNodes | celo.mjs:22-23 | the same as `ParseNode` for each node of the list in order |
| CeloModule.Celo.ParseElements | celo.mjs:22-40 | the same as `ParseNodes` for the first added node of each record |
| CeloModule.Celo.AddToDOM | celo.mjs:102-105 | a falsy fragment returns `false`; with no container it throws; otherwise the fragment's children move to the container's end; the fragment's identity counter is untouched |
| CeloModule.Celo.Render | celo.mjs:34-37 | the fragment's rebuilt children are appended exactly when the response is `ok` with non-empty text and a container exists |
| CeloModule.FetchedOnce | celo.mjs:8-9 | no component URL is requested twice |
| CeloModule.ReparseElement | celo.mjs:116-124 | the parent's children end up exactly as they were |
| CeloModule.InjectMarkup | celo.mjs:75-83 | falsy text gives `false`; otherwise a new fragment holds the parsed children in order |
| CeloModule.Recreate | celo.mjs:91-97 | one script's rebuild touches only existing lists |
| CeloModule.RecreateAll | celo.mjs:91-97 | rebuilding the scripts touches only existing lists |
| CeloModule.RecreateScripts | celo.mjs:88-99 | a falsy fragment returns `false`; otherwise each listed script is rebuilt in order with a new identity, and the fragment stays valid |
| CeloModule.RecreateEach | celo.mjs:91-97 | the `forEach` rebuilds the listed scripts in order, hands out one identity per script and keeps the fragment valid |
| CeloModule.RecreateScript | celo.mjs:91-97 | one script is rebuilt in its parent with the next identity, the identity counter moves on by one, and the fragment stays valid |
| CeloModule.ReplacedShape | celo.mjs:92-96 | the old script leaves its place and a script with its text is appended to the same parent |
| CeloModule.RecreateOne | celo.mjs:92-96 | one rebuild keeps the parent's length and script count, and the new script carries the old one's text |
| CeloModule.RecreateKeepsOthers | celo.mjs:92-96 | one rebuild keeps the parent's other scripts |
| CeloModule.RecreateKeepsIdsUnique | celo.mjs:92-96 | one rebuild with a fresh identity keeps the parent's identities unique and below the counter |
| CeloModule.RecreateStep | celo.mjs:91-97 | one rebuild keeps every list's shape and leaves the remaining scripts rebuildable |
| CeloModule.RecreateAllKeepsShape | celo.mjs:88-99 | rebuilding every script keeps each element's child count and script count |
| CeloModule.RecreateAllReplaces | celo.mjs:91-97 | after the whole loop every listed script is gone from its parent, and the parent holds a new script with the same text and the identity handed out for it |
| CeloModule.RecreateFirstReplaced | celo.mjs:91-97 | the first listed script ends up replaced, whatever the later turns do |
| CeloModule.RecreateKeepsText | celo.mjs:92-96 | rebuilding one script leaves the text of every later listed script |
| CeloModule.ReplacedKeepsText | celo.mjs:92-96 | one rebuild leaves the text of every other script of the parent |
| CeloModule.RecreateAllKeepsChild | celo.mjs:91-97 | a child that no later turn removes stays in its list |
| CeloModule.RecreateAllKeepsAbsent | celo.mjs:91-97 | an identity gone from a list, older than the counter, never comes back |
| CeloModule.FirstWithId | celo.mjs:96 | `removeChild` removes the first child with the identity |

## Left out

- Dom.Fragment.AppendChild: requires a node that is not already in the list and is not the fragment itself, so moving an existing child to the end is not modelled. The loaders only append newly created scripts.
- CeloModule.SetUp, CeloModule.Celo.SetUpContainer, CeloModule.Celo.AddToDOM: `containerId` is taken to be a CSS identifier, so the selector `#containerId` (celo.mjs:45, :104) finds exactly the container created with that id (celo.mjs:47). For other ids the source behaves differently. An id such as `1x` or `a:b` makes `querySelector` throw, already at start-up (celo.mjs:133). An id such as `a.b` or `a b` never matches, so every new tag creates another container and `addToDOM` throws on `null`. `CeloModule.ConfigDefaults` uses any non-empty entry as given.
- Webcom.Step: a record with no container yet appends nothing. The source's chain runs later, so for records [cache-hit `X-FOO`, `BODY`] it would find the container that the second record created. The model appends nothing for `X-FOO`, because the chains run one record at a time.
- The `MutationObserver` itself (`setUpObserver`, `setUpWebcom`): record lists are given as input, and each record's added nodes are a sequence of `Node`s.
- `fetch`, `res.text()` and promise scheduling: a settled response is a parameter, and interleaving of concurrent chains is not modelled. `webcom.js` chains run one record at a time.
- HTML parsing (`innerHTML`): the parsed children of a fetched text are given as input (`parsed`, `scripts`). `celo.js` and `webcom.js` append an opaque `ParsedMarkup` item.
- CeloModule.Celo.Render: does not model `parseElements(el.shadowRoot.childNodes)` after the append (celo.mjs:38), because shadow roots are outside the node model.
- `backSearch` (celo.mjs:109-113): enumerating every element of the document is not modelled. Each re-insertion it performs is `ReparseElement`.
- Console output (`console.warn`, `console.error`, `console.log`) is dropped.
- Forwarding to the native `customElements.define` is not modelled. `Define` keeps only the push.
- `localStorage` is a `map`. Persistence across page loads and quota errors are not modelled.
- `toLowerCase` is ASCII only. Unicode case mapping and UTF-16 code units are not modelled.
- Non-string values in `window.celoConfig` are not modelled: each setting is absent or a string.
- A missing `document.body` when `setUpContainer` (celo.js) or `createContainer` (webcom.js) runs is not modelled: these count containers and never throw.

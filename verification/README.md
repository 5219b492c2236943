# HumbleBundle search buttons — a Dafny model

The userscript `humblebundle-search-buttons.user.js` runs on Humble Bundle's
games, books and software bundle pages. Next to each product-title heading
(`div.tier-item-details-view h2.heading-medium`) it puts a Copy button, a
Google search link and, on game bundles only, a Steam search link. The Google
query is the title. On book bundles it is enriched with the author read from
the heading's "publishers and developers" blocks (`<title> BY <author>`), or
it falls back to `<title> book`. Each handled heading gets a processed
marker, so the pass can run again on every DOM mutation without adding
buttons twice.

This project models that decision logic as pure functions over an abstract
page:

- `strings.dfy`: the JavaScript string built-ins the script relies on.
  `Strings.Trim` follows ECMAScript's whitespace and line-terminator set.
  `Strings.Includes` is `String.prototype.includes`. `Strings.StartsWith` is
  `String.prototype.startsWith`. The file also holds a small `Options`
  module whose `None` stands for JavaScript `null`.
- `uri.dfy`: `encodeURIComponent` and `decodeURIComponent`. They follow the
  Encode and Decode operations of section 19.2.6 of the ECMAScript language
  specification, using UTF-8 and upper-case hex escapes. A `URIError` is
  `None`. The model proves that decoding undoes encoding.
- `search_buttons.dfy`: the script itself. It covers the page flags, the
  author lookup (`getAuthor`), the query, the action cluster, the per-heading
  visit and the pass (`createActionElements`). The mutation observer is
  modelled as "the pass runs `n` times".

A page is the sequence of headings the selector returns, in document order.
A heading holds four things:
- its text content;
- the blocks of its enclosing details view, or `None` when it has none;
- the processed marker;
- the clusters attached to it so far.

A cluster is the ordered list of actions in one wrapper.

The script's `@description` (line 5) advertises the Google query for books
as `Title BY Author`. The code is narrower, and the model follows the code:

- In the code (`if (author)`, line 96), an author whose span text trims to
  the empty string is falsy, so such a heading gets the `<title> book`
  query.
- The lookup also stops at the first accepted block even when its name is
  empty. It does not go on to later blocks.
- A block that starts with `Author:` but has no `span` is passed over
  (line 74). It is not an error.

## Model

| member | source | states |
|---|---|---|
| `Strings.Trim` | humblebundle-search-buttons.user.js:90 | the title is the heading text with no whitespace or line terminator left at either end |
| `Strings.TrimUnique` | humblebundle-search-buttons.user.js:90 | cutting all-whitespace runs off both ends of a string so that the rest starts and ends with non-whitespace always gives `Trim`'s result |
| `Strings.TrimIsInfix` | humblebundle-search-buttons.user.js:90 | the trimmed title is a contiguous piece of the heading text and everything cut away is whitespace |
| `Strings.StartsWithIff` | humblebundle-search-buttons.user.js:72 | `startsWith('Author:')` holds exactly when the trimmed text is the label followed by some rest |
| `Strings.Includes` | humblebundle-search-buttons.user.js:22-23 | `includes` is true exactly when the substring occurs at some index of the path |
| `SearchButtons.ContextOf` | humblebundle-search-buttons.user.js:22-23 | the games flag holds exactly when the path contains `/games/`; the books flag holds exactly when it contains `/books/` |
| `SearchButtons.FindAuthor` | humblebundle-search-buttons.user.js:70-79 | the scan returns null exactly when no block both starts with `Author:` (after trimming) and has a span; otherwise it returns the trimmed span text of the first such block, so a labelled block without a span is skipped |
| `SearchButtons.GetAuthor` | humblebundle-search-buttons.user.js:66-80 | `getAuthor` is non-null exactly when the heading has a details view with an accepted block, and then it is that view's first-match author; with no details view it is null |
| `SearchButtons.AuthorUnique` | humblebundle-search-buttons.user.js:71-77 | the first accepted block is unique, so a heading has at most one author |
| `SearchButtons.LabelledBlockIsAccepted` | humblebundle-search-buttons.user.js:71-77 | a block reading `Author: <name>` with the name in its span passes the label test and the lookup over it yields that name, including an empty name |
| `SearchButtons.GoogleQuery` | humblebundle-search-buttons.user.js:93-103 | off book bundles the query is the trimmed title verbatim; on book bundles it is `title BY author` when the first-match author is non-empty, and `title book` when there is no author or the author is empty |
| `SearchButtons.BookQueryFromAuthorBlock` | humblebundle-search-buttons.user.js:90-106 | a new book heading `Foo Bar` with a block `Author: A. Writer` gets, from one visit, one cluster whose Google link parameter decodes to `Foo Bar BY A. Writer`; with an empty name it decodes to `Foo Bar book` (stated for any non-empty trimmed title and any trimmed name) |
| `Uri.EncodeUriComponent` | humblebundle-search-buttons.user.js:105-106 | the encoded term holds only unreserved characters and `%`, so it cannot end the URL's query parameter early |
| `Uri.DecodeEncode` | humblebundle-search-buttons.user.js:105-106 | decoding an encoded term gives back exactly the term, for every string |
| `SearchButtons.SearchTermOfEncoded` | humblebundle-search-buttons.user.js:105-106 | the query parameter of `base + encodeURIComponent(term)` decodes to `term` |
| `SearchButtons.GoogleUrl` | humblebundle-search-buttons.user.js:170 | the Google link is the Google base URL followed by text of unreserved characters and `%` only, with no parameter delimiter, and that text decodes back to the query |
| `SearchButtons.SteamUrl` | humblebundle-search-buttons.user.js:182 | the Steam link is the Steam store base URL followed by text of unreserved characters and `%` only, and that text decodes back to the term |
| `SearchButtons.ClusterFor` | humblebundle-search-buttons.user.js:142-187 | a cluster is copy, then Google, then a Steam link as a third action on game bundles only; the copy action copies the trimmed title; the Google href is the Google URL of the query and the Steam href the Steam URL of the title, not of the enriched query, so each parameter decodes to its term |
| `SearchButtons.SteamLinkIffGames` | humblebundle-search-buttons.user.js:177-187 | a cluster contains a Steam link if and only if the page is a games bundle |
| `SearchButtons.Visit` | humblebundle-search-buttons.user.js:85-190 | a processed heading and a heading with an empty trimmed title are left unchanged; any other heading gets exactly one more cluster, built from it, and the processed marker; text and details view never change |
| `SearchButtons.CreateActionElements` | humblebundle-search-buttons.user.js:82-91 | the pass keeps the page's headings in order and visits each one |
| `SearchButtons.PassIdempotent` | humblebundle-search-buttons.user.js:85-88 | running the pass a second time changes nothing |
| `SearchButtons.Observe` | humblebundle-search-buttons.user.js:197-203 | any number of passes (the initial one, then one per observer notification) keep the page's headings in order, each with its text and details view unchanged |
| `SearchButtons.ObserveConverges` | humblebundle-search-buttons.user.js:197-203 | after the initial pass, any number of observer-triggered passes leave the page exactly as one pass left it |
| `SearchButtons.PassLeavesNothingPending` | humblebundle-search-buttons.user.js:85-190 | after a pass no heading is both unprocessed and non-empty |
| `SearchButtons.PassAddsOneClusterPerPending` | humblebundle-search-buttons.user.js:85-190 | a pass adds exactly as many clusters as there were unprocessed headings with a non-empty title |
| `SearchButtons.PassSplits` | humblebundle-search-buttons.user.js:83-85 | headings are handled independently, so headings loaded later are treated as if they had been there from the start |
| `SearchButtons.VisitFresh` | humblebundle-search-buttons.user.js:90-92 | the first visit of a new heading attaches one cluster if its title is non-empty, and none otherwise |
| `SearchButtons.ExactlyOneCluster` | humblebundle-search-buttons.user.js:85-190 | on a page of new headings, after one or more passes each heading with a non-empty title carries exactly one cluster (its own) and every other heading carries none |

## Left out

- DOM construction is not modelled (lines 108-147, 172 and 184). That covers the wrapper `div`, moving the heading into it, the icons, the CSS strings and colours, and `target="_blank"`. It is UI. The wrapper is modelled as the ordered list of its actions.
- The clipboard write is not modelled (lines 45-64). The model has neither `navigator.clipboard` nor the hidden-textarea `execCommand` fallback, and it does not model the error logging. This is host I/O, and the write is asynchronous and never confirmed. The copy action records the text it copies.
- The one-second visual reset of the copy button (lines 153-159) is a timer and UI behaviour.
- `fixTextSelection` (lines 25-43 and 193) sets styles and adds event listeners. That is event-loop plumbing with no effect on the buttons.
- The `MutationObserver` subscription itself is not modelled (lines 197-201). `Observe` models only its effect: the pass runs any number of times.
- The `@match` header (lines 7-9) decides which pages the script runs on. That is the userscript host's job.
- How `querySelectorAll`, `closest` and `textContent` find elements is not modelled. A heading carries its text and the blocks of its enclosing details view directly. A block carries its text and the text of its first `span`.
- Strings are sequences of Unicode scalar values, but JavaScript strings are UTF-16. A title holding a lone surrogate, which makes `encodeURIComponent` throw, cannot be represented.
- `Strings.Trim`: uses the space separators of category Zs in current Unicode. It does not track how that set changes between Unicode versions.

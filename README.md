# Navbar and living-header derivations, modelled in Dafny

This project models the logic in two React components of a web front end.
It covers only what those components compute. It does not model their
markup.

- **The site navbar** (`src/components/site-navbar.tsx`):
  - It splits the current pathname into route segments.
  - It turns the segments into a breadcrumb trail: one link per segment except the last, a separator after each link, and a final page label.
  - It shows either that trail or, on a narrow viewport, the sidebar trigger.
  - It turns a dash-separated slug into a title.
  - It derives the avatar-fallback initials from the username.
  - It renders the popover's summary entries and navigation links in order.
- **The living-section header** (`src/app/living/_sections/header.tsx`):
  - It decides whether the page is the main listing page (`/living`, compared case-insensitively).
  - It decides whether the header is visible: on the main page, or when the pathname contains `search`.
  - It builds the search redirect `/living/search?q=` + `encodeURIComponent(query)`.
  - It issues the back command.

Both files are pure. Everything is modelled as Dafny datatypes, functions and
lemmas. Inputs are parameters: the pathname, the narrow-viewport flag, the
navbar data record and the search query. A router call is returned as a
`Command` value (`Push(href)` or `Back`).

Modules:

- `Wrappers`: `Option` and `Result`.
- `Text`: the JavaScript string operations used.
  - `split` with a one-character separator, with empty parts kept.
  - `join`, `includes`, `indexOf`.
  - ASCII `toUpperCase` and `toLowerCase`.
- `SiteNavbar`: the navbar derivations, with the trail as a list of `Crumb`s and the whole view as `NavbarView`.
- `Unicode`: the encodings that `encodeURIComponent` goes through.
  - A JavaScript string is a sequence of UTF-16 code units.
  - CodePointAt follows section 11.1.4 of ECMA-262.
  - UTF-16 encoding follows section 11.1.1 of ECMA-262.
  - UTF-8 encoding and a strict decoder follow RFC 3629.
- `UriComponent`: `encodeURIComponent`.
  - The Encode algorithm follows section 19.2.6.5 of ECMA-262.
  - Code units in ECMA-262's uriUnescaped set are copied as they are. That set is RFC 3986's unreserved characters plus `! * ' ( )`, which section 2.2 of RFC 3986 counts among the sub-delims.
  - Every other code point becomes its UTF-8 octets as `%XX` triplets with upper-case hex digits.
  - A lone surrogate throws `URIError`.
  - A reference encoder and a percent-decoder that inverts it are defined alongside.
- `LivingHeader`: the header derivations and handlers.

Main results:

- The number of segments is one more than the number of `/` after the first character, and there is always at least one segment.
- Empty segments are kept.
- The breadcrumb trail has exactly `n - 1` links, the same number of separators, and one page item.
- The breadcrumb and the sidebar trigger are never shown together.
- `slugToTitle` does the following, character by character:
  - it turns each dash into a space;
  - it upper-cases the character at the start or right after a dash;
  - it keeps every other character.
- The initials have at most two characters. They are the upper-cased first characters of the first two words.
- `encodeURIComponent` agrees with the reference "UTF-16 decode, then UTF-8, then percent-escape every octet outside uriUnescaped".
- It fails exactly on strings that contain a lone surrogate.
- Its output contains only uriUnescaped characters and `%XX` triplets.
- Percent-decoding that output gives back the query.

The split keeps empty segments. The code (`site-navbar.tsx:43`) filters
nothing, so `"/"` gives `[""]` and `"/a//b"` gives `["a", "", "b"]`.

The breadcrumb link target is the single segment (`"/" + p`), not the
cumulative path. This is modelled as written. `FlatHrefIsCumulativeOnlyAtFirst`
shows that the two agree only for the first link.

## Model

| member | source | states |
|---|---|---|
| `Text.Split` | src/components/site-navbar.tsx:43 | `split` with one separator never returns an empty list, and the empty string gives `[""]` |
| `Text.JoinCount` | src/components/site-navbar.tsx:47-49 | joining parts that contain no separator puts exactly one separator between neighbours, so there are one fewer separators than parts |
| `Text.Contains` | src/app/living/_sections/header.tsx:22 | `includes(t)` needs `t` no longer than the string, and the empty `t` is always included |
| `Text.Upper` | src/components/site-navbar.tsx:48 | ASCII `toUpperCase` of a character: a lower-case letter becomes the upper-case letter that lower-cases back to it; anything else is unchanged; the result is never a lower-case letter |
| `Text.Lower` | src/app/living/_sections/header.tsx:9 | ASCII `toLowerCase` of a character: an upper-case letter becomes a lower-case letter; anything else is unchanged; the result is never an upper-case letter |
| `Text.LowerString` | src/app/living/_sections/header.tsx:9 | `toLowerCase` of a string keeps its length and lower-cases each character in place |
| `Text.SplitCount` | src/components/site-navbar.tsx:43 | `split` with one separator gives one more part than there are separators |
| `Text.SplitPartsFree` | src/components/site-navbar.tsx:43 | no part contains the separator, and every character of a part comes from the string |
| `Text.JoinSplit` | src/components/site-navbar.tsx:43 | joining the parts with the separator gives back the string |
| `Text.SplitJoin` | src/components/site-navbar.tsx:47-49 | splitting a join of separator-free parts gives back the parts, so split and join are inverse |
| `Text.SplitAt` | src/components/site-navbar.tsx:43 | the split is the text before the first separator followed by the split of the rest |
| `Text.SplitHead` | src/components/site-navbar.tsx:101 | the first part is the text before the first separator |
| `Text.ContainsIff` | src/app/living/_sections/header.tsx:22 | `includes(t)` holds exactly when `t` occurs at some index |
| `Text.ContainsNeedsFirst` | src/app/living/_sections/header.tsx:22 | a string lacking the first character of `t` does not include `t` |
| `SiteNavbar.DropFirst` | src/components/site-navbar.tsx:43 | `slice(1)` is one character shorter than a non-empty string, and `""` for the empty string |
| `SiteNavbar.Segments` | src/components/site-navbar.tsx:43 | the route split is never empty; its length is one more than the `/` count after the first character; joined with `/` it gives back the path after its first character; no segment contains `/` |
| `SiteNavbar.SegmentsOfRoot` | src/components/site-navbar.tsx:43 | `"/"` splits into `[""]` |
| `SiteNavbar.SegmentsKeepEmptyMiddle` | src/components/site-navbar.tsx:43 | `"/a//b"` splits into `["a", "", "b"]` because empty segments are kept |
| `SiteNavbar.SegmentsKeepEmptyLast` | src/components/site-navbar.tsx:43 | `"/a/b/"` splits into `["a", "b", ""]` |
| `SiteNavbar.Capitalize` | src/components/site-navbar.tsx:48 | capitalizing keeps the length, upper-cases the first character and leaves every later character unchanged |
| `SiteNavbar.CapitalizeEach` | src/components/site-navbar.tsx:48 | `map` gives exactly one capitalized word per word |
| `SiteNavbar.CapitalizeEachAt` | src/components/site-navbar.tsx:48 | the k-th word of the mapped list is the k-th word capitalized |
| `SiteNavbar.SlugToTitle` | src/components/site-navbar.tsx:45-50 | the title is exactly as long as the slug |
| `SiteNavbar.SlugToTitleSpaces` | src/components/site-navbar.tsx:45-50 | a slug without spaces gives a title with exactly one space per dash |
| `SiteNavbar.SlugToTitleIsTitleCased` | src/components/site-navbar.tsx:45-50 | slugToTitle equals the character-by-character reading: dash to space, upper-case at the start and after a dash, every other character unchanged |
| `SiteNavbar.SlugToTitleLength` | src/components/site-navbar.tsx:45-50 | the title is as long as the slug, with a space exactly where the slug has a dash or a space |
| `SiteNavbar.SlugToTitleWords` | src/components/site-navbar.tsx:45-50 | for a slug without spaces, the title has one word per dash-separated part, and that word is the part capitalized |
| `SiteNavbar.SlugToTitleAtDash` | src/components/site-navbar.tsx:45-50 | at the first dash, the title is the capitalized first part, a space, then the title of the rest |
| `SiteNavbar.SlugToTitleTwoParts` | src/components/site-navbar.tsx:45-50 | a two-part slug becomes both parts capitalized with a space between them |
| `SiteNavbar.SlugToTitleOfSearchResults` | src/components/site-navbar.tsx:45-50 | `"search-results"` becomes `"Search Results"` |
| `SiteNavbar.SlugToTitleOfSingleLetter` | src/components/site-navbar.tsx:45-50 | `"x"` becomes `"X"` |
| `SiteNavbar.LinkFragments` | src/components/site-navbar.tsx:60-69 | the fragments of k segments number between k and 2k, and exactly 2k when every index passes the separator test |
| `SiteNavbar.Trail` | src/components/site-navbar.tsx:57-74 | the trail for n segments has 2n-1 items, and its last item is the page labelled with the title of the last segment |
| `SiteNavbar.LinkFragmentsAlternate` | src/components/site-navbar.tsx:60-69 | every index of `paths.slice(0, -1)` passes the separator test, so the fragments alternate: link to `"/" + segment` labelled with its title, then separator |
| `SiteNavbar.TrailShape` | src/components/site-navbar.tsx:57-74 | for n segments the trail has 2(n-1)+1 items: link k is labelled with the title of segment k and points at `"/" + segment k`, each link is followed by a separator, and the last item is the page labelled with the title of the last segment |
| `SiteNavbar.TrailTally` | src/components/site-navbar.tsx:60-74 | the trail has n-1 links, n-1 separators and exactly one page item |
| `SiteNavbar.FlatHrefIsCumulativeOnlyAtFirst` | src/components/site-navbar.tsx:63 | the link target `"/" + segment i` equals the cumulative path prefix exactly when i = 0 |
| `SiteNavbar.LeadingSlot` | src/components/site-navbar.tsx:55-57 | the sidebar trigger shows exactly on a narrow viewport; the breadcrumb shows exactly when the viewport is not narrow and there are more than one segment; the two never show together |
| `SiteNavbar.LeadingSlotTally` | src/components/site-navbar.tsx:55-77 | for any pathname the two views are exclusive; a breadcrumb that shows has n-1 links, n-1 separators and one page; it shows whenever the viewport is not narrow and the path has a second `/` |
| `SiteNavbar.FirstUpper` | src/components/site-navbar.tsx:103 | `charAt(0).toUpperCase()` is empty exactly for the empty word, and otherwise the single upper-cased first character |
| `SiteNavbar.Initials` | src/components/site-navbar.tsx:100-103 | the initials have at most two characters |
| `SiteNavbar.InitialsOfOneWord` | src/components/site-navbar.tsx:100-103 | a username without a space gives the upper-cased first character of its only word |
| `SiteNavbar.InitialsOfTwoWords` | src/components/site-navbar.tsx:100-103 | when the first space is at k, the initials are those of the text before k followed by that of the next word; anything after the second word is dropped |
| `SiteNavbar.InitialsIsByPosition` | src/components/site-navbar.tsx:100-103 | the initials have at most two characters: the upper-cased first character when it is not a space, and the upper-cased character after the first space when it is not a space; an empty word adds nothing |
| `SiteNavbar.InitialsExample` | src/components/site-navbar.tsx:100-103 | `"jane doe smith"` gives `"JD"`, so only the first two words count |
| `SiteNavbar.SummaryRows` | src/components/site-navbar.tsx:110-120 | one row per summary entry, in input order, with key and value unchanged |
| `SiteNavbar.MenuItems` | src/components/site-navbar.tsx:125-129 | one list item per navigation link, in input order, with href, title and description unchanged |
| `SiteNavbar.Navbar` | src/components/site-navbar.tsx:41-144 | in the rendered navbar the trigger and breadcrumb are exclusive, and the breadcrumb shows exactly when the viewport is not narrow and the path has a second `/`; profile links, avatar source and name come from the record; the fallback is the positional initials; there is one row per summary entry and one item per link; the action button is the record's |
| `UriComponent.EncodeUriComponent` | src/app/living/_sections/header.tsx:12 | a successful encoding is at least as long as the input, and the empty string encodes to the empty string |
| `Unicode.CodePointAt` | src/app/living/_sections/header.tsx:12 | reading a code point takes one or two code units within the string; a code point read without error is a scalar value; a lone surrogate is reported as itself with count one |
| `Unicode.Utf16DecodeEncode` | src/app/living/_sections/header.tsx:12 | reading back the code points of the UTF-16 encoding of scalar values gives those values |
| `Unicode.Utf16EncodeDecode` | src/app/living/_sections/header.tsx:12 | the code points read from a string with no lone surrogate re-encode to that string |
| `Unicode.Utf16DecodeFails` | src/app/living/_sections/header.tsx:12 | reading the code points fails exactly when some position holds a lone surrogate |
| `Unicode.Utf8EncodeOne` | src/app/living/_sections/header.tsx:12 | a scalar value has 1 to 4 UTF-8 octets; an ASCII value is its own single octet; otherwise every octet is at least 0x80 |
| `Unicode.Utf8DecodeOneEncode` | src/app/living/_sections/header.tsx:12 | the strict UTF-8 decoder reads a scalar back from its own octets, whatever follows them |
| `Unicode.Utf8DecodeEncode` | src/app/living/_sections/header.tsx:12 | UTF-8 decoding undoes UTF-8 encoding |
| `UriComponent.EncodeIsEscapedUtf8` | src/app/living/_sections/header.tsx:12 | the ECMA-262 Encode algorithm throws URIError exactly when the code points cannot be read, and otherwise returns their UTF-8 octets with each octet outside uriUnescaped written as an RFC 3986 section 2.1 `%XX` triplet |
| `UriComponent.PercentDecodeEscape` | src/app/living/_sections/header.tsx:12 | percent-decoding undoes percent-escaping |
| `UriComponent.EncodeRoundTrip` | src/app/living/_sections/header.tsx:12 | decoding the output of `encodeURIComponent` gives back the original string |
| `UriComponent.EncodeFailsOnLoneSurrogate` | src/app/living/_sections/header.tsx:12 | `encodeURIComponent` throws exactly when the string holds a lone surrogate |
| `UriComponent.EncodeTextSucceeds` | src/app/living/_sections/header.tsx:12 | the UTF-16 form of any text encodes without error |
| `UriComponent.EncodeIsEscaped` | src/app/living/_sections/header.tsx:12 | the output contains only uriUnescaped characters (RFC 3986's unreserved set plus `! * ' ( )`) and `%XX` triplets with upper-case hex digits, and none of `& = # ? / +` or space |
| `LivingHeader.IsMainPage` | src/app/living/_sections/header.tsx:9 | the main page path has exactly the length of `/living` and starts with `/` |
| `LivingHeader.IsVisible` | src/app/living/_sections/header.tsx:22 | a visible pathname is at least as long as `search` |
| `LivingHeader.MainPageIsCaseVariant` | src/app/living/_sections/header.tsx:9 | isMainPage holds exactly when the pathname is `/living` with each letter in either case, and nothing more |
| `LivingHeader.MainPageIgnoresCase` | src/app/living/_sections/header.tsx:9 | `"/LIVING"` and `"/Living"` are the main page |
| `LivingHeader.MainPageIsExact` | src/app/living/_sections/header.tsx:9 | `"/living/"` is not the main page |
| `LivingHeader.VisibleIff` | src/app/living/_sections/header.tsx:22 | the header is visible exactly on the main page or when `search` occurs in the pathname, so the main page is always visible |
| `LivingHeader.VisibleOnMainPage` | src/app/living/_sections/header.tsx:9-22 | `/living` is the main page and is visible |
| `LivingHeader.VisibleOnSearch` | src/app/living/_sections/header.tsx:22 | `/living/search?q=shoes` is not the main page but is visible |
| `LivingHeader.HiddenElsewhere` | src/app/living/_sections/header.tsx:22 | `/living/item/42` is not visible, and neither is `/LIVING/SEARCH`, because the substring test does not ignore case |
| `LivingHeader.SearchTarget` | src/app/living/_sections/header.tsx:12 | a successful search target begins with `/living/search?q=` |
| `LivingHeader.SearchTargetShape` | src/app/living/_sections/header.tsx:12 | after the route prefix the target holds only uriUnescaped characters and `%XX` triplets, and none of `& = # ? / +` or space |
| `LivingHeader.SearchTargetRoundTrip` | src/app/living/_sections/header.tsx:12 | percent-decoding the `q` value of the target gives back the query |
| `LivingHeader.HandleSearch` | src/app/living/_sections/header.tsx:11-13 | handleSearch issues exactly one push of the search target, and none when encoding throws |
| `LivingHeader.SearchFailsOnLoneSurrogate` | src/app/living/_sections/header.tsx:11-13 | handleSearch throws, pushing nothing, exactly when the query holds a lone surrogate |
| `LivingHeader.TextQuerySearches` | src/app/living/_sections/header.tsx:11-13 | a query made of text always produces a push |
| `LivingHeader.SearchExample` | src/app/living/_sections/header.tsx:11-13 | `handleSearch("a b")` pushes `/living/search?q=a%20b` |
| `LivingHeader.HandleBack` | src/app/living/_sections/header.tsx:15-17 | handleBack issues exactly one command, a back command |
| `LivingHeader.Header` | src/app/living/_sections/header.tsx:19-27 | the main page is always visible; the title is `"Living"` and the placeholder is `"Search for anything ..."` for every path |

## Left out

- `src/hooks/marketplace/use-items.ts` is not part of this model. It is a thin wrapper over the SWR library and `fetch`. Caching, the 60-second deduplication window and refocus revalidation belong to that library, and the fetch is network I/O.
- JSX markup, CSS classes, the UI primitives and the `ListItem` forwardRef wrapper are left out. They only render. The model keeps only what they are given: labels, hrefs, image source and texts.
- `useIsMobile`, `usePathname`, `useRouter` and Next.js `Link` belong to the host framework.
  - The viewport flag and the pathname are parameters.
  - `router.push` and `router.back` are returned as `Command` values.
  - Router history is not modelled, including `back()` with no history.
- Whether `AvatarImage` loads and the fallback is shown is a runtime image-loading concern and is left out. Only the fallback text is modelled.
- `Text.Upper`, `Text.Lower`: only ASCII letters change case. Full Unicode case mapping, where some characters change length (`ß` becomes `SS`), is left out. For `isMainPage` this gives the same answer, since no other character lower-cases to the characters of `/living` and nothing else. That claim rests on the Unicode case tables and is not proved.
- `SiteNavbar.Initials`: it models the pathname and the username as sequences of Unicode scalar values. So for a word that starts with a character outside the Basic Multilingual Plane, it yields the whole character. `charAt(0)` yields only the leading surrogate half. `slugToTitle` is not affected, because such a character is left unchanged either way.
- Navbar strings cannot hold lone surrogates, because they are Dafny strings. Only the search query is modelled as raw UTF-16 code units, since that is where a lone surrogate changes the outcome.
- `SiteNavbar.SummaryRows`: a summary value, a JavaScript `number`, is modelled as a `real`. NaN, the infinities and the number-to-text formatting React applies are left out.
- `UriComponent.DecodeUriComponent` is the inverse used to state the round trip. It percent-decodes, then UTF-8-decodes, then UTF-16-encodes. It rejects non-ASCII characters and malformed triplets by returning `None`. It is not a full model of ECMA-262's `decodeURIComponent`, which the source never calls.

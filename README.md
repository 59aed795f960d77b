# Custom URI Redirect plugin: the link rewriter

A Dafny model of the link rewriter of the Obsidian plugin
CustomUriRedirectPlugin (`custom-uri-redirect-plugin/main.ts`), with proofs
about it.

The plugin registers a markdown post-processor. For each rendered anchor it
looks at the href:

- An `obsidian://open` link with a non-empty `vault` and `file` is pointed at
  `https://jax-baiya.github.io/custom-uri-redirect-plugin/obsidian-open`.
- An `obsidian://adv-uri` link with a non-empty `vault`, `uid` and `filepath`
  is pointed at `.../obsidian-adv-uri`.

In both cases the parameters are re-encoded with encodeURIComponent, and the
anchor's text becomes `Redirected to: ` followed by the new URL. Every other
anchor is left as it is. A command builds the same open URL for the active
note. The settings tab checks that a typed redirect domain starts with
`https://`, then stores it nowhere.

The model is exact down to the standards the code leans on:

- `utf8.dfy` (`Utf8`): UTF-8 encoding per Table 3-6 of the Unicode Standard.
  Decoding follows the WHATWG Encoding Standard's UTF-8 decoder, which
  replaces bad bytes with U+FFFD.
- `uri_component.dfy` (`UriComponent`): encodeURIComponent, sections 19.2.6.4
  and 19.2.6.5 of ECMA-262.
- `form_urlencoded.dfy` (`FormUrlEncoded`): the URLSearchParams constructor and
  `get`. Parsing follows the application/x-www-form-urlencoded parser in
  section 5.1 of the WHATWG URL Standard:
  - split on `&` and drop empty pieces;
  - split each piece at its first `=`;
  - turn `+` into a space;
  - percent-decode, then UTF-8 decode.
  It also has the query writer the redirect URLs use, proved to parse back to
  its pairs.
- `js_string.dfy` (`JsString`): `startsWith`, and `replace` with a string
  pattern, which removes the first occurrence wherever it is.
- `plugin.dfy` (`CustomUriRedirectPlugin`): href classification and the URL
  builders, as functions. The anchor is a class with `href` and `text`
  fields. `processCustomUriLinks` is a method that loops over a sequence of
  anchors and rewrites them in place.
- `settings.dfy` (`CustomUriRedirectSettingTab`): the domain check.

A few things the code does differently from what one might expect, and which
the model follows:

- `get` returns the first pair with a name, not the last. So for
  `vault=a&vault=b` the rewriter reads `a`.
- The redirect base is hard-coded in all three places that build a URL. No
  configured domain reaches the rewriter.
- No `newpane` parameter is added, and no `path` parameter is consulted.
- The prefix test `startsWith('obsidian://open')` is looser than the pattern
  `obsidian://open?` that `replace` cuts out, and `replace` cuts the first
  occurrence of the pattern wherever it is. So when the href does not start
  with the pattern, `replace` cuts its first later occurrence, if there is
  one, and URLSearchParams gets what is left. Only when there is none does
  it get the whole href. The same holds for `obsidian://adv-uri` and
  `obsidian://adv-uri?`. `RewriteHref` does the same.

## Model

| member | source | states |
|---|---|---|
| CustomUriRedirectPlugin.RewriteHref | custom-uri-redirect-plugin/main.ts:38-60 | a URL is produced only for an href with one of the two prefixes, and every URL produced is an https URL |
| CustomUriRedirectPlugin.OpenParams | custom-uri-redirect-plugin/main.ts:42 | the parameters of an open link are URLSearchParams of what follows `obsidian://open?` when the href starts with it, and of the whole href when that pattern occurs nowhere in it |
| CustomUriRedirectPlugin.AdvUriParams | custom-uri-redirect-plugin/main.ts:50 | the parameters of an adv-uri link are URLSearchParams of what follows `obsidian://adv-uri?` when the href starts with it, and of the whole href when that pattern occurs nowhere in it |
| CustomUriRedirectPlugin.PrefixesExclusive | custom-uri-redirect-plugin/main.ts:41-50 | an href that starts with `obsidian://open` never starts with `obsidian://adv-uri`, so at most one branch applies and the open test decides first |
| CustomUriRedirectPlugin.UnrecognizedUnchanged | custom-uri-redirect-plugin/main.ts:41-66 | an href with neither prefix yields no URL, and its anchor keeps its href and text |
| CustomUriRedirectPlugin.OpenRewrite | custom-uri-redirect-plugin/main.ts:41-48 | an open link is rewritten exactly when `get('vault')` and `get('file')` are both present and non-empty, and then to the open URL of those two values |
| CustomUriRedirectPlugin.AdvUriRewrite | custom-uri-redirect-plugin/main.ts:50-58 | an adv-uri link is rewritten exactly when `vault`, `uid` and `filepath` are all present and non-empty, and then to the adv-uri URL of those values |
| CustomUriRedirectPlugin.OpenUrl | custom-uri-redirect-plugin/main.ts:47 | the open URL is the open redirect page followed by `?` and its query, and is an https URL |
| CustomUriRedirectPlugin.AdvUriUrl | custom-uri-redirect-plugin/main.ts:57 | the adv-uri URL is the adv-uri redirect page followed by `?` and its query, and is an https URL |
| CustomUriRedirectPlugin.OpenShape | custom-uri-redirect-plugin/main.ts:47 | `?vault=` + enc(vault) + `&file=` + enc(file) is `?` followed by the query written from the pairs (vault, file) |
| CustomUriRedirectPlugin.AdvUriShape | custom-uri-redirect-plugin/main.ts:57 | the adv-uri query is the one written from the pairs (vault, uid, filepath) |
| CustomUriRedirectPlugin.OpenUrlRoundTrip | custom-uri-redirect-plugin/main.ts:47 | URLSearchParams on the query of an open URL gives back exactly the pairs (vault, file), for any strings |
| CustomUriRedirectPlugin.AdvUriUrlRoundTrip | custom-uri-redirect-plugin/main.ts:57 | URLSearchParams on the query of an adv-uri URL gives back exactly the pairs (vault, uid, filepath) |
| CustomUriRedirectPlugin.OpenHrefParses | custom-uri-redirect-plugin/main.ts:41-44 | an `obsidian://open?vault=…&file=…` link written with encodeURIComponent passes the prefix test, and after the replace its query parses to the two pairs |
| CustomUriRedirectPlugin.AdvUriHrefParses | custom-uri-redirect-plugin/main.ts:50-54 | the same for an adv-uri link and its three pairs |
| CustomUriRedirectPlugin.GetOpenPairs | custom-uri-redirect-plugin/main.ts:43-44 | `get` finds the vault and the file in the pairs of an open query |
| CustomUriRedirectPlugin.GetAdvUriPairs | custom-uri-redirect-plugin/main.ts:52-54 | `get` finds the vault, uid and filepath in the pairs of an adv-uri query |
| CustomUriRedirectPlugin.RewriteObsidianOpen | custom-uri-redirect-plugin/main.ts:41-48 | a well-formed open link with a non-empty vault and file is rewritten to exactly the open URL of those values |
| CustomUriRedirectPlugin.RewriteObsidianAdvUri | custom-uri-redirect-plugin/main.ts:50-58 | a well-formed adv-uri link with non-empty values is rewritten to exactly the adv-uri URL of those values |
| CustomUriRedirectPlugin.RewritePreservesParameters | custom-uri-redirect-plugin/main.ts:42-57 | whenever a link is rewritten, the redirect page reads back, with `get`, the same parameter values the rewriter read from the original href |
| CustomUriRedirectPlugin.Truthy | custom-uri-redirect-plugin/main.ts:46 | definition: a `get` result is falsy exactly when it is `null` or the empty string |
| CustomUriRedirectPlugin.Processed | custom-uri-redirect-plugin/main.ts:62-64 | an anchor changes exactly when RewriteHref gives a URL; a changed anchor has an https href and the text `Redirected to: ` followed by that href; the new href is not rewritten again |
| CustomUriRedirectPlugin.RewrittenIsFixed | custom-uri-redirect-plugin/main.ts:41-62 | a produced URL differs from the href it came from and matches neither prefix |
| CustomUriRedirectPlugin.ProcessedIdempotent | custom-uri-redirect-plugin/main.ts:62-64 | a rewritten anchor is not rewritten again: processing twice is processing once |
| CustomUriRedirectPlugin.NoUrlUnchanged | custom-uri-redirect-plugin/main.ts:39-62 | the `if (notionUrl)` test fails only when no URL was built, because a built URL is never empty |
| CustomUriRedirectPlugin.ProcessLink | custom-uri-redirect-plugin/main.ts:35-66 | the forEach callback leaves the anchor as Processed of its former href and text: the new URL and `Redirected to: ` + URL when one is built, otherwise unchanged |
| CustomUriRedirectPlugin.ProcessCustomUriLinks | custom-uri-redirect-plugin/main.ts:34-68 | after the loop every anchor of the list is Processed of what it was, also when an anchor occurs several times; nothing outside the list changes |
| CustomUriRedirectPlugin.Anchor.constructor | custom-uri-redirect-plugin/main.ts:35 | an anchor starts with the given href and text |
| CustomUriRedirectPlugin.GenerateLinkForCurrentNote | custom-uri-redirect-plugin/main.ts:73-83 | a link exists exactly when a note is active; it is the open redirect page with a query that URLSearchParams reads back as (vault name, file path) |
| CustomUriRedirectPlugin.GeneratedLinkMatchesRewrite | custom-uri-redirect-plugin/main.ts:77 | the command's link equals what the post-processor makes of the open link for the same vault and file |
| CustomUriRedirectPlugin.NamesUnreserved | custom-uri-redirect-plugin/main.ts:47-57 | the parameter names `vault`, `file`, `uid` and `filepath` are left unchanged by encodeURIComponent |
| UriComponent.EncodeUriComponent | custom-uri-redirect-plugin/main.ts:47 | the encoding is never shorter than its input |
| UriComponent.EncodeCodePoint | custom-uri-redirect-plugin/main.ts:47 | an unreserved character, and only such a one, is kept as it is; any other character becomes the escapes of its UTF-8 bytes, the `k`th group of three characters being the escape of byte `k` (so one to four `%XX` groups, and exactly one for an ASCII character) |
| UriComponent.Escape | custom-uri-redirect-plugin/main.ts:47 | the escape of one byte is three characters: `%` followed by two upper-case hex digits |
| UriComponent.Escapes | custom-uri-redirect-plugin/main.ts:47 | three characters per byte, the `k`th group of three being the escape of byte `k`, so every group is `%` followed by two upper-case hex digits |
| UriComponent.EncodeIsWellEscaped | custom-uri-redirect-plugin/main.ts:47 | every encodeURIComponent result is a run of unreserved characters and `%XX` escapes with upper-case hex digits |
| UriComponent.EncodedHasNoDelimiters | custom-uri-redirect-plugin/main.ts:47 | an encoded value holds no raw `&`, `=`, `#`, `+` or space, and only ASCII |
| UriComponent.EncodeUnreserved | custom-uri-redirect-plugin/main.ts:47 | a string of unreserved characters is its own encoding |
| UriComponent.EncodeAppend | custom-uri-redirect-plugin/main.ts:47 | encoding distributes over concatenation |
| Utf8.DecodeEncode | custom-uri-redirect-plugin/main.ts:42 | UTF-8 decoding the UTF-8 encoding of any string gives the string back |
| Utf8.Decode | custom-uri-redirect-plugin/main.ts:42 | the decoder emits at most one character per byte, and nothing only for no input |
| Utf8.Encode | custom-uri-redirect-plugin/main.ts:47 | a string's UTF-8 encoding has between one and four bytes per character |
| Utf8.EncodeChar | custom-uri-redirect-plugin/main.ts:47 | one to four bytes per scalar value; one byte exactly for ASCII; continuation bytes in 0x80-0xBF |
| Utf8.EncodeAscii | custom-uri-redirect-plugin/main.ts:47 | an ASCII string is encoded one byte per character, as its character codes |
| FormUrlEncoded.SearchParams | custom-uri-redirect-plugin/main.ts:42 | the empty string and a lone `?` give no pairs; with SearchParamsQueryString, a written query is read back exactly |
| FormUrlEncoded.Parse | custom-uri-redirect-plugin/main.ts:42 | empty input gives no pairs, and input without `&` gives the one pair of its single piece |
| FormUrlEncoded.ParsePieces | custom-uri-redirect-plugin/main.ts:42 | at most one pair per piece, every pair being the parse of some non-empty piece; when no piece is empty, exactly one pair per piece, the `k`th pair being the parse of the `k`th piece |
| FormUrlEncoded.ParsePiece | custom-uri-redirect-plugin/main.ts:42 | a piece without `=` is a name with the empty value |
| FormUrlEncoded.ReplacePlus | custom-uri-redirect-plugin/main.ts:42 | each `+` byte becomes a space and every other byte is kept, so no `+` is left |
| FormUrlEncoded.PercentDecode | custom-uri-redirect-plugin/main.ts:42 | decoding never lengthens the input, and input without `%` is left unchanged |
| FormUrlEncoded.DecodeComponent | custom-uri-redirect-plugin/main.ts:42 | a name or value decodes to at most one character per byte, and to the empty string only from no bytes |
| FormUrlEncoded.SplitWithout | custom-uri-redirect-plugin/main.ts:42 | input without `&` is one piece |
| FormUrlEncoded.Get | custom-uri-redirect-plugin/main.ts:43-44 | `get` gives None exactly when no pair has the name, and otherwise the value of the first pair that has it |
| FormUrlEncoded.Split | custom-uri-redirect-plugin/main.ts:42 | splitting gives at least one piece, and no piece holds the separator |
| FormUrlEncoded.JoinSplit | custom-uri-redirect-plugin/main.ts:42 | joining the pieces of a split with the separator gives the input back |
| FormUrlEncoded.IndexOf | custom-uri-redirect-plugin/main.ts:42 | the index of the first `=` in a piece, or its length when there is none |
| FormUrlEncoded.DecodeComponentEncode | custom-uri-redirect-plugin/main.ts:47 | the parser reads a value written by encodeURIComponent as exactly the original string |
| FormUrlEncoded.PercentDecodeEncode | custom-uri-redirect-plugin/main.ts:47 | percent-decoding the bytes of an encodeURIComponent result gives the UTF-8 bytes of the original |
| FormUrlEncoded.QueryStringParses | custom-uri-redirect-plugin/main.ts:47-57 | parsing a query written from any pairs gives exactly those pairs back, in order |
| FormUrlEncoded.SearchParamsQueryString | custom-uri-redirect-plugin/main.ts:42 | URLSearchParams gives the pairs back from such a query, with or without a leading `?` |
| JsString.StartsWith | custom-uri-redirect-plugin/main.ts:41 | definition: `startsWith` holds exactly when every character of the prefix matches the string at the same position |
| JsString.RemoveFirst | custom-uri-redirect-plugin/main.ts:42 | `replace(pattern, '')` leaves a string without the pattern as it is; otherwise the result is one pattern shorter, and putting the pattern back at its first occurrence gives the string again |
| JsString.IndexOf | custom-uri-redirect-plugin/main.ts:42 | the first occurrence of the pattern at or after the start position, or None when there is none |
| JsString.RemovePrefix | custom-uri-redirect-plugin/main.ts:42 | when the href starts with the pattern, `replace(pattern, '')` removes exactly that prefix |
| CustomUriRedirectSettingTab.OnDomainChange | custom-uri-redirect-plugin/main.ts:109-117 | the handler, testing DomainAccepted (`startsWith('https://')`), shows the invalid-domain notice exactly when the value is not `https://` followed by something |
| CustomUriRedirectSettingTab.DomainAcceptedShape | custom-uri-redirect-plugin/main.ts:111 | `startsWith('https://')` holds exactly for `https://` followed by anything |
| CustomUriRedirectSettingTab.DefaultDomainAccepted | custom-uri-redirect-plugin/main.ts:108 | the field's starting value passes the check |
| CustomUriRedirectSettingTab.HttpRejected | custom-uri-redirect-plugin/main.ts:111-112 | any `http://` value is rejected with the notice |
| CustomUriRedirectSettingTab.ProducedUrlsAccepted | custom-uri-redirect-plugin/main.ts:111 | every URL the rewriter or the command produces would pass the domain check |

## Left out

- Selecting the anchors with `querySelectorAll('div a[href^="obsidian:"]')` (main.ts:31). The method takes the anchors as a given sequence. A missing href attribute (`null`) is modelled as the empty string, which the code treats the same way.
- All `console.log` and `console.error` output, and every `Notice` popup except the text of the invalid-domain notice. These are side-channel output only.
- Plugin lifecycle and registration: `onload`, `onunload`, `addCommand`, `addSettingTab` and `registerMarkdownPostProcessor` (main.ts:4-27). These are host wiring.
- Building the settings widgets (main.ts:95-108). Only the check in the change handler is modelled.
- `getActiveFile` and `getName` (main.ts:73, 75). They are host lookups, so their results are parameters of `GenerateLinkForCurrentNote`.
- GenerateLinkForCurrentNote: the notice that shows the link is left out. The function returns the link instead.
- Lone surrogates. A Dafny `string` cannot hold one, so the URIError that encodeURIComponent throws for one has no counterpart here.
- UTF-16 code units. Strings are sequences of Unicode scalar values. `startsWith` and `replace` are only applied with ASCII patterns, so those results do not depend on the difference.
- `obsidian.d.ts` and `rollup.config.js`: the first only declares types of the host API, the second is build configuration.
- Assigning identifiers in front matter, clipboard writes, context menus and a configurable redirect domain. main.ts does none of these, so they are not part of this model.
- The byte-order mark. URLSearchParams decodes with "UTF-8 decode without BOM", so a leading U+FEFF is kept. The model keeps it too, and proves nothing specific about it.

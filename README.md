# Podcast feed adapter: episode ids, episode projection, episode lookup

A Dafny model of the deterministic logic in `podcast.config.ts` of the
technicality.fm site. The module fetches the podcast's RSS feed, turns each
feed item into an `Episode` record for the pages, and looks one episode up by
the id in its route. Under the fetch and the caching sit three pure pieces,
modelled here:

- `encodeEpisodeId`: an id that does not start with `http` is kept as it is.
  Any other id is read as a URL and reduced to the last `/`-separated segment
  of its pathname. When that segment is empty and the URL has a query string,
  the id becomes the query string without its leading `?`.
- the projection in `getPodcastEpisodes`: one `Episode` per feed item, in feed
  order. The id is the normalised `item.id ?? item.link`, the enclosure is the
  first of the item's enclosures, the cover art is the item's iTunes image
  href, and the other fields are copied.
- the lookup in `getPodcastEpisode`: the first episode whose id equals the
  decoded id or whose link ends with it, or nothing.

Files:

- `wrappers.dfy` (module `Wrappers`): `Option`, for JavaScript's `undefined`.
- `js_string.dfy` (module `JsString`): the JavaScript string built-ins the
  code uses (`startsWith`, `endsWith`, `split('/')`, last element of a split,
  `slice(1)`). It includes the proof that the last piece of a split is the one
  text after the last separator.
- `podcast_config.dfy` (module `PodcastConfig`): the data records, the three
  operations and their properties.

The WHATWG URL parser is a parameter, `parseUrl: string -> Url`. `Url` holds
only the two parts the code reads, `pathname` and `search`. The id from the
route is passed to the lookup already URI-decoded.

Nothing in `podcast.config.ts` makes episode ids unique within a list.
`EpisodeIdsMayCollide` exhibits two different items whose episodes get the
same id.

## Model

| member | source | states |
|---|---|---|
| `JsString.StartsWith` | podcast.config.ts:40 | `startsWith(prefix)`: a literal prefix test |
| `JsString.EndsWith` | podcast.config.ts:82 | `endsWith(suffix)`: a literal suffix test; every string ends with the empty string |
| `JsString.SliceFrom` | podcast.config.ts:49 | `slice(start)`: the rest of the string from `start`, or empty once `start` is past the end |
| `JsString.Count` | podcast.config.ts:45 | the number of separators is zero exactly when the separator does not occur |
| `JsString.Split` | podcast.config.ts:45 | `split(sep)` gives one more piece than there are separators, and no piece contains the separator |
| `JsString.JoinSplit` | podcast.config.ts:45 | splitting loses nothing: joining the pieces with the separator gives back the string |
| `JsString.LastSegment` | podcast.config.ts:45-46 | `path[path.length - 1]` of `split(sep)`: the result is the text after the last separator, a suffix with no separator that is the whole string or preceded by a separator |
| `JsString.LastPieceIsTail` | podcast.config.ts:45-46 | by induction over the split: the last piece of the split is a suffix with no separator, and it is either the whole string or preceded by a separator |
| `JsString.TailAfterLastSepUnique` | podcast.config.ts:45-46 | only one suffix has that property |
| `JsString.LastSegmentCharacterised` | podcast.config.ts:45-46 | a string is the last piece of the split if and only if it is the text after the last separator |
| `JsString.LastSegmentEmpty` | podcast.config.ts:46-48 | the last piece is empty if and only if the string is empty or ends with the separator |
| `PodcastConfig.EncodeEpisodeId` | podcast.config.ts:39-53 | an id that does not start with `http` is returned unchanged |
| `PodcastConfig.HttpPrefixIsLiteral` | podcast.config.ts:40-46 | the prefix test is literal, not a scheme test: `httpx://h/ep`, whose parsed pathname is `/ep`, takes the URL branch and gets the id `ep` |
| `PodcastConfig.EncodeLastSegment` | podcast.config.ts:44-52 | for a URL whose pathname does not end in `/`, the id is the non-empty text after the pathname's last `/` and contains no `/` |
| `PodcastConfig.EncodeLastSegmentIs` | podcast.config.ts:44-52 | for a URL, any non-empty text after the pathname's last `/` is the id |
| `PodcastConfig.EncodeQueryFallback` | podcast.config.ts:44-50 | for a URL whose pathname is empty or ends in `/` and which has a query string, the id is the query string minus its first character |
| `PodcastConfig.EncodeEmptyId` | podcast.config.ts:44-52 | for a URL whose pathname is empty or ends in `/` and which has no query string, the id is empty |
| `PodcastConfig.ToEpisode` | podcast.config.ts:60-70 | the `items.map` callback, built from the field helpers `RawId` (`item.id ?? item.link`, via `Option.GetOr`), `FirstEnclosure` (`enclosures[0]`) and `CoverArt` (`itunes_image?.href`); its meaning is stated by `Episodes` |
| `PodcastConfig.Episodes` | podcast.config.ts:60-70 | through its field helpers `RawId`, `FirstEnclosure`, `CoverArt` and `Option.GetOr`: one episode per item, same order; each episode's id is the normalised id-or-link, title, description, link, published, content and duration are the item's, enclosure is the first enclosure or absent, cover art is the image href or absent |
| `PodcastConfig.EpisodeAt` | podcast.config.ts:60-70 | the episode at each position is the projection of the item at the same position |
| `PodcastConfig.EpisodeIdsMayCollide` | podcast.config.ts:61 | two different items, with different links, can get the same episode id |
| `PodcastConfig.Matches` | podcast.config.ts:82 | the `find` predicate: the episode's id equals the decoded id, or its link ends with it |
| `PodcastConfig.Find` | podcast.config.ts:81-83 | nothing is found if and only if no episode has the id or a link ending with it; what is found is in the list and matches |
| `PodcastConfig.FindFirstMatch` | podcast.config.ts:81-83 | the first matching episode is the one returned |
| `PodcastConfig.FindReturnsFirstMatch` | podcast.config.ts:81-83 | whatever is returned sits at an index where it matches and no earlier episode matches |
| `PodcastConfig.FindOwnLinkAndId` | podcast.config.ts:82 | a lookup by an episode's own link or by its own id always finds an episode (the first match, not necessarily this one) |
| `PodcastConfig.FindEmptyId` | podcast.config.ts:82 | every link ends with the empty string, so the empty id finds the first episode |
| `PodcastConfig.GetPodcastEpisode` | podcast.config.ts:78-84 | `getPodcastEpisode` after the fetch and the decoding: `Find` over `Episodes`; its meaning is stated by `GetPodcastEpisodeFromItems` |
| `PodcastConfig.ItemMatches` | podcast.config.ts:61-82 | the `find` predicate read off a feed item: its normalised id equals the decoded id, or its link ends with it |
| `PodcastConfig.GetPodcastEpisodeFromItems` | podcast.config.ts:78-84 | in terms of the feed items: nothing is found exactly when no item's normalised id equals the decoded id and no item's link ends with it; otherwise the first such item's episode is returned |

## Left out

- The RSS fetch of the configured feed URL and the `rss-to-json` parser (podcast.config.ts:24, 59) are I/O and a foreign library. The model starts from the parsed items.
- React's `cache` memoisation (podcast.config.ts:23, 58, 78) is a framework caching primitive. Each operation is modelled as a plain function of its inputs.
- `new URL(raw)` (podcast.config.ts:44) is the WHATWG URL parser, a foreign component. It is the parameter `parseUrl`, which always succeeds. The exception it throws on a malformed URL, and so the rejection of `getPodcastEpisodes`, is not modelled.
- `decodeURIComponent` (podcast.config.ts:80) is a foreign decoder. The lookup takes the decoded id.
- `getPodcast` (podcast.config.ts:23-33) copies four feed-level fields after the fetch. It has no logic beyond the I/O and is not part of this model.
- The `podcastConfig` literal (podcast.config.ts:4-18) is static display data.
- JavaScript strings are sequences of UTF-16 code units, while a Dafny `string` holds Unicode scalar values, so lone surrogates cannot be represented. For well-formed strings nothing in `split('/')`, `slice(1)`, `startsWith` or `endsWith` depends on the difference.
- The `URIError` that `decodeURIComponent` throws on a malformed escape (podcast.config.ts:80), which rejects `getPodcastEpisode`, is not modelled.
- The record types are declared outside this file. `published`, `duration` and the enclosure's `length` are strings in the model. They are only copied, so nothing depends on their type.

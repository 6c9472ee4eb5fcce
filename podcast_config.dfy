/**
 * The deterministic part of podcast.config.ts: normalising an episode id,
 * projecting parsed feed items onto episodes, and looking an episode up by id.
 * The RSS fetch, the feed parser, React's `cache` and the WHATWG URL parser
 * stay outside; the URL parser is a parameter, and the only parts of its
 * result the code reads are `pathname` and `search`.
 */
module PodcastConfig {
  import opened Wrappers
  import opened JsString

  /** The parts of `new URL(raw)` that `encodeEpisodeId` reads. */
  datatype Url = Url(pathname: string, search: string)

  /** A media attachment of a feed item. */
  datatype Enclosure = Enclosure(url: string, mediaType: string, length: string)

  /** The `itunes_image` object of a feed item. */
  datatype Image = Image(href: string)

  /** One parsed feed item, as the RSS parser delivers it. */
  datatype Item = Item(
    id: Option<string>,
    title: string,
    description: string,
    link: string,
    published: string,
    content: string,
    itunesDuration: string,
    enclosures: seq<Enclosure>,
    itunesImage: Option<Image>)

  /** One episode record as handed to the pages. */
  datatype Episode = Episode(
    id: string,
    title: string,
    description: string,
    link: string,
    published: string,
    content: string,
    duration: string,
    enclosure: Option<Enclosure>,
    coverArt: Option<string>)

  const HttpScheme := "http"

  /**
   * `encodeEpisodeId(raw)`: an id that does not start with "http" is kept;
   * otherwise the id becomes the last path segment of the URL, or, when that
   * segment is empty and the URL has a query, the query without its '?'.
   */
  function EncodeEpisodeId(raw: string, parseUrl: string -> Url): (r: string)
    ensures !StartsWith(raw, HttpScheme) ==> r == raw
  {
    if !StartsWith(raw, HttpScheme) then raw
    else
      var url := parseUrl(raw);
      var lastPathname := LastSegment(url.pathname, '/');
      if lastPathname == "" && url.search != "" then SliceFrom(url.search, 1)
      else lastPathname
  }

  /**
   * The prefix test is literal, not a scheme test: "httpx://h/ep" (scheme
   * "httpx") takes the URL branch, so its id is read off the parsed URL and
   * not passed through.
   */
  lemma HttpPrefixIsLiteral(parseUrl: string -> Url)
    requires parseUrl("httpx://h/ep") == Url("/ep", "")
    ensures EncodeEpisodeId("httpx://h/ep", parseUrl) == "ep"
  {
  }

  /**
   * A URL whose pathname does not end in '/' is reduced to the text after the
   * pathname's last '/': a non-empty suffix of the pathname with no '/' in it.
   */
  lemma EncodeLastSegment(raw: string, parseUrl: string -> Url)
    requires StartsWith(raw, HttpScheme)
    requires parseUrl(raw).pathname != "" && parseUrl(raw).pathname[|parseUrl(raw).pathname| - 1] != '/'
    ensures var r := EncodeEpisodeId(raw, parseUrl);
            r != "" && '/' !in r && IsTailAfterLastSep(parseUrl(raw).pathname, '/', r)
  {
  }

  /**
   * A URL whose pathname is empty or ends in '/' and that has a query string
   * is reduced to the query string without its first character.
   */
  lemma EncodeQueryFallback(raw: string, parseUrl: string -> Url)
    requires StartsWith(raw, HttpScheme)
    requires var p := parseUrl(raw).pathname; p == "" || p[|p| - 1] == '/'
    requires parseUrl(raw).search != ""
    ensures EncodeEpisodeId(raw, parseUrl) == parseUrl(raw).search[1..]
  {
  }

  /**
   * A URL whose pathname is empty or ends in '/' and that has no query string
   * gives the empty id.
   */
  lemma EncodeEmptyId(raw: string, parseUrl: string -> Url)
    requires StartsWith(raw, HttpScheme)
    requires var p := parseUrl(raw).pathname; p == "" || p[|p| - 1] == '/'
    requires parseUrl(raw).search == ""
    ensures EncodeEpisodeId(raw, parseUrl) == ""
  {
  }

  /** `item.id ?? item.link`: the string the episode id is derived from. */
  function RawId(item: Item): string
  {
    item.id.GetOr(item.link)
  }

  /** `item.enclosures[0]`: undefined for an empty list. */
  function FirstEnclosure(enclosures: seq<Enclosure>): Option<Enclosure>
  {
    if |enclosures| == 0 then None else Some(enclosures[0])
  }

  /** `item.itunes_image?.href`. */
  function CoverArt(image: Option<Image>): Option<string>
  {
    match image
    case None => None
    case Some(img) => Some(img.href)
  }

  /** The body of the `items.map` callback in `getPodcastEpisodes`. */
  function ToEpisode(item: Item, parseUrl: string -> Url): Episode {
    Episode(
      id := EncodeEpisodeId(RawId(item), parseUrl),
      title := item.title,
      description := item.description,
      link := item.link,
      published := item.published,
      content := item.content,
      duration := item.itunesDuration,
      enclosure := FirstEnclosure(item.enclosures),
      coverArt := CoverArt(item.itunesImage))
  }

  /**
   * `feed.items.map(...)` in `getPodcastEpisodes`: one episode per item, in
   * the items' order, with the item's fields copied and its id normalised.
   */
  function Episodes(items: seq<Item>, parseUrl: string -> Url): (episodes: seq<Episode>)
    ensures |episodes| == |items|
    ensures forall i :: 0 <= i < |items| ==>
      && episodes[i].id == EncodeEpisodeId(if items[i].id.Some? then items[i].id.value else items[i].link, parseUrl)
      && episodes[i].title == items[i].title
      && episodes[i].description == items[i].description
      && episodes[i].link == items[i].link
      && episodes[i].published == items[i].published
      && episodes[i].content == items[i].content
      && episodes[i].duration == items[i].itunesDuration
      && (|items[i].enclosures| == 0 ==> episodes[i].enclosure == None)
      && (|items[i].enclosures| > 0 ==> episodes[i].enclosure == Some(items[i].enclosures[0]))
      && (items[i].itunesImage.None? ==> episodes[i].coverArt == None)
      && (items[i].itunesImage.Some? ==> episodes[i].coverArt == Some(items[i].itunesImage.value.href))
  {
    if items == [] then []
    else [ToEpisode(items[0], parseUrl)] + Episodes(items[1..], parseUrl)
  }

  /**
   * Episode ids are not unique: two items with different ids and links can
   * be normalised to the same episode id.
   */
  lemma EpisodeIdsMayCollide(items: seq<Item>, parseUrl: string -> Url)
    requires items == [
      Item(Some("https://a.example/feed/ep1"), "", "", "https://a.example/1", "", "", "", [], None),
      Item(None, "", "", "https://b.example/ep1", "", "", "", [], None)]
    requires parseUrl("https://a.example/feed/ep1") == Url("/feed/ep1", "")
    requires parseUrl("https://b.example/ep1") == Url("/ep1", "")
    ensures items[0] != items[1]
    ensures Episodes(items, parseUrl)[0].id == Episodes(items, parseUrl)[1].id == "ep1"
  {
  }

  /** A helper for concrete URLs: the segment after the last '/' is the id. */
  lemma EncodeLastSegmentIs(raw: string, parseUrl: string -> Url, segment: string)
    requires StartsWith(raw, HttpScheme)
    requires segment != "" && IsTailAfterLastSep(parseUrl(raw).pathname, '/', segment)
    ensures EncodeEpisodeId(raw, parseUrl) == segment
  {
  }

  /** The `find` predicate of `getPodcastEpisode`: id equality or a link suffix. */
  predicate Matches(episode: Episode, decodedId: string) {
    episode.id == decodedId || EndsWith(episode.link, decodedId)
  }

  /**
   * `episodes.find(...)`: the first matching episode, or none. Nothing is
   * found exactly when no episode matches; what is found is an episode of
   * the list that matches.
   */
  function Find(episodes: seq<Episode>, decodedId: string): (r: Option<Episode>)
    ensures r.None? <==> forall i :: 0 <= i < |episodes| ==> !Matches(episodes[i], decodedId)
    ensures r.Some? ==> r.value in episodes && Matches(r.value, decodedId)
  {
    if episodes == [] then None
    else if Matches(episodes[0], decodedId) then Some(episodes[0])
    else
      var r := Find(episodes[1..], decodedId);
      assert forall i :: 1 <= i < |episodes| ==> episodes[i] == episodes[1..][i - 1];
      r
  }

  /** When the episode at `i` is the first match, it is the one found. */
  lemma {:induction false} FindFirstMatch(episodes: seq<Episode>, decodedId: string, i: nat)
    requires i < |episodes| && Matches(episodes[i], decodedId)
    requires forall j :: 0 <= j < i ==> !Matches(episodes[j], decodedId)
    ensures Find(episodes, decodedId) == Some(episodes[i])
  {
    if i > 0 {
      assert !Matches(episodes[0], decodedId);
      assert episodes[1..][i - 1] == episodes[i];
      FindFirstMatch(episodes[1..], decodedId, i - 1);
    }
  }

  /** What is found is the first match: no earlier episode matches. */
  lemma {:induction false} FindReturnsFirstMatch(episodes: seq<Episode>, decodedId: string)
    requires Find(episodes, decodedId).Some?
    ensures exists i :: 0 <= i < |episodes| && episodes[i] == Find(episodes, decodedId).value
                        && Matches(episodes[i], decodedId)
                        && forall j :: 0 <= j < i ==> !Matches(episodes[j], decodedId)
  {
    if Matches(episodes[0], decodedId) {
      assert episodes[0] == Find(episodes, decodedId).value;
    } else {
      var tail := episodes[1..];
      FindReturnsFirstMatch(tail, decodedId);
      var k :| 0 <= k < |tail| && tail[k] == Find(tail, decodedId).value
               && Matches(tail[k], decodedId)
               && forall j :: 0 <= j < k ==> !Matches(tail[j], decodedId);
      assert episodes[k + 1] == tail[k];
      assert forall j :: 1 <= j < k + 1 ==> episodes[j] == tail[j - 1];
    }
  }

  /** Every episode can be looked up by its own link, and by its own id. */
  lemma FindOwnLinkAndId(episodes: seq<Episode>, i: nat)
    requires i < |episodes|
    ensures Find(episodes, episodes[i].link).Some?
    ensures Find(episodes, episodes[i].id).Some?
  {
  }

  /**
   * Every link ends with "", so looking up the empty id finds the first
   * episode of a non-empty list.
   */
  lemma FindEmptyId(episodes: seq<Episode>)
    requires |episodes| > 0
    ensures Find(episodes, "") == Some(episodes[0])
  {
    assert EndsWith(episodes[0].link, "");
  }

  /**
   * `getPodcastEpisode`, once the feed is parsed and the id is decoded: the
   * first projected episode whose id equals `decodedId` or whose link ends
   * with it.
   */
  function GetPodcastEpisode(items: seq<Item>, parseUrl: string -> Url, decodedId: string): Option<Episode> {
    Find(Episodes(items, parseUrl), decodedId)
  }

  /**
   * The lookup predicate read off a feed item: the item's normalised id is
   * `decodedId`, or the item's link ends with it.
   */
  predicate ItemMatches(item: Item, parseUrl: string -> Url, decodedId: string) {
    EncodeEpisodeId(RawId(item), parseUrl) == decodedId || EndsWith(item.link, decodedId)
  }

  /** The episode at `i` is the projection of the item at `i`. */
  lemma EpisodeAt(items: seq<Item>, parseUrl: string -> Url, i: nat)
    requires i < |items|
    ensures i < |Episodes(items, parseUrl)|
    ensures Episodes(items, parseUrl)[i] == ToEpisode(items[i], parseUrl)
  {
  }

  /**
   * The lookup in terms of the feed items: nothing is found exactly when no
   * item's normalised id is `decodedId` and no item's link ends with it;
   * otherwise the first such item's episode is returned.
   */
  lemma GetPodcastEpisodeFromItems(items: seq<Item>, parseUrl: string -> Url, decodedId: string)
    ensures GetPodcastEpisode(items, parseUrl, decodedId).None? <==>
            forall i :: 0 <= i < |items| ==> !ItemMatches(items[i], parseUrl, decodedId)
    ensures forall i :: 0 <= i < |items| && ItemMatches(items[i], parseUrl, decodedId) &&
              (forall j :: 0 <= j < i ==> !ItemMatches(items[j], parseUrl, decodedId))
              ==> GetPodcastEpisode(items, parseUrl, decodedId) == Some(ToEpisode(items[i], parseUrl))
  {
    var episodes := Episodes(items, parseUrl);
    forall i | 0 <= i < |items|
      ensures episodes[i] == ToEpisode(items[i], parseUrl)
      ensures Matches(episodes[i], decodedId) <==> ItemMatches(items[i], parseUrl, decodedId)
    {
      EpisodeAt(items, parseUrl, i);
    }
    forall i | 0 <= i < |items| && ItemMatches(items[i], parseUrl, decodedId) &&
              (forall j :: 0 <= j < i ==> !ItemMatches(items[j], parseUrl, decodedId))
      ensures GetPodcastEpisode(items, parseUrl, decodedId) == Some(ToEpisode(items[i], parseUrl))
    {
      FindFirstMatch(episodes, decodedId, i);
    }
  }
}

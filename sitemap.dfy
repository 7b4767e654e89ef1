/**
 * The sitemap shards (app/sitemap.ts): shard 0 lists the two home pages and one page per
 * scholar of the search index, shard 1 one page per hadith of the hadith index.
 */
module Sitemap {
  import opened Wrappers

  datatype ChangeFrequency = Daily | Monthly | Never

  /** One sitemap entry; `lastModified` is the clock reading passed in as `now`. */
  datatype Route = Route(url: string, lastModified: int, changeFrequency: ChangeFrequency, priority: real)

  /** The fields of a search-index entry the sitemap reads. */
  datatype ScholarEntry = ScholarEntry(id: string, score: Option<int>)

  datatype HadithEntry = HadithEntry(id: string)

  /** A data file as the sitemap sees it. */
  datatype DataFile<T> = Missing | Unparsable | Parsed(entries: seq<T>)

  const DefaultBaseUrl := "https://sahih-explorer.com"

  /** `process.env.NEXT_PUBLIC_BASE_URL || DefaultBaseUrl`. */
  function BaseUrl(env: Option<string>): (r: string)
    ensures env.Some? && env.value != [] ==> r == env.value
    ensures env.None? || env.value == [] ==> r == DefaultBaseUrl
  {
    if env.Some? && env.value != [] then env.value else DefaultBaseUrl
  }

  /** `generateSitemaps()`: the shard ids. */
  function GenerateSitemaps(): (ids: seq<int>)
    ensures |ids| == 2 && ids[0] == 0 && ids[1] == 1
  {
    [0, 1]
  }

  /** `(scholar.score || 0) > 50 ? 0.9 : 0.6`. */
  function ScholarPriority(score: Option<int>): (p: real)
    ensures p == 0.9 <==> score.Some? && score.value > 50
    ensures p == 0.6 <==> score.None? || score.value <= 50
  {
    if score.Some? && score.value > 50 then 0.9 else 0.6
  }

  function ScholarRoute(baseUrl: string, scholar: ScholarEntry, now: int): Route
  {
    Route(baseUrl + "/en/scholar/" + scholar.id, now, Monthly, ScholarPriority(scholar.score))
  }

  function HadithRoute(baseUrl: string, hadith: HadithEntry, now: int): Route
  {
    Route(baseUrl + "/en/hadith/" + hadith.id, now, Never, 0.8)
  }

  /** The entries of a file that was found and parsed; none otherwise. */
  function Entries<T>(file: DataFile<T>): seq<T>
  {
    if file.Parsed? then file.entries else []
  }

  /**
   * `sitemap({id})`. The two data files are passed in as they were found on disk; a missing or
   * unparsable file contributes no routes.
   */
  method BuildSitemap(id: int, baseUrl: string, scholarIndex: DataFile<ScholarEntry>,
                      hadithIndex: DataFile<HadithEntry>, now: int) returns (routes: seq<Route>)
    // any id other than a shard id yields nothing
    ensures id !in GenerateSitemaps() ==> routes == []
    // shard 0: the two home pages, then one route per scholar, in index order
    ensures id == 0 ==>
              && |routes| == 2 + |Entries(scholarIndex)|
              && routes[0] == Route(baseUrl + "/en", now, Daily, 1.0)
              && routes[1] == Route(baseUrl + "/ar", now, Daily, 1.0)
              && forall i :: 0 <= i < |Entries(scholarIndex)| ==>
                   routes[2 + i] == ScholarRoute(baseUrl, Entries(scholarIndex)[i], now)
    // shard 1: one route per hadith, in index order
    ensures id == 1 ==>
              && |routes| == |Entries(hadithIndex)|
              && forall i :: 0 <= i < |routes| ==> routes[i] == HadithRoute(baseUrl, Entries(hadithIndex)[i], now)
  {
    routes := [];
    if id == 0 {
      routes := routes + [Route(baseUrl + "/en", now, Daily, 1.0), Route(baseUrl + "/ar", now, Daily, 1.0)];
      if scholarIndex.Parsed? {
        var scholars := scholarIndex.entries;
        var scholarRoutes := seq(|scholars|, i requires 0 <= i < |scholars| => ScholarRoute(baseUrl, scholars[i], now));
        routes := routes + scholarRoutes;
      }
    } else if id == 1 {
      if hadithIndex.Parsed? {
        var hadiths := hadithIndex.entries;
        var hadithRoutes := seq(|hadiths|, i requires 0 <= i < |hadiths| => HadithRoute(baseUrl, hadiths[i], now));
        routes := routes + hadithRoutes;
      }
    }
  }

  /** An absent or broken index leaves shard 0 with its two home pages and shard 1 empty. */
  method BrokenIndexes(baseUrl: string, now: int) returns (shard0: seq<Route>, shard1: seq<Route>)
    ensures |shard0| == 2 && shard0[0].url == baseUrl + "/en" && shard0[1].url == baseUrl + "/ar"
    ensures shard1 == []
  {
    shard0 := BuildSitemap(0, baseUrl, Missing, Unparsable, now);
    shard1 := BuildSitemap(1, baseUrl, Missing, Unparsable, now);
  }
}

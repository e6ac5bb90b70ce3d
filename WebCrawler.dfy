/**
 * The crawler object: its results table, the per-seed crawl, the seed filter and
 * fan-out of `CrawlAndSaveAsync` (run here one task after another), and the
 * report writer.
 */
module Crawler {
  import opened Url
  import opened Extraction
  import opened Aggregation
  import opened Report

  /** One task per valid seed, in seed order: seed `i` fetched with outcome `fetches[i]`. */
  function Tasks(tryCreate: UriParser, seeds: seq<string>, fetches: seq<FetchOutcome>): (r: seq<Task>)
    requires |seeds| == |fetches|
    ensures forall t :: t in r ==> t.seed in seeds && forall u :: u in t.found ==> IsValidUrl(tryCreate, u)
  {
    seq(|seeds|, i requires 0 <= i < |seeds| => Task(seeds[i], Discovered(tryCreate, fetches[i])))
  }

  /** Task `i` is seed `i` with what its fetch outcome discovered. */
  lemma TaskAt(tryCreate: UriParser, seeds: seq<string>, fetches: seq<FetchOutcome>, i: nat)
    requires |seeds| == |fetches| && i < |seeds|
    ensures Tasks(tryCreate, seeds, fetches)[i] == Task(seeds[i], Discovered(tryCreate, fetches[i]))
  {
  }

  /**
   * The table once every task of `CrawlAndSaveAsync` has completed: the seeds are
   * filtered, and each valid seed's discoveries are appended under it.
   */
  function Crawl(tryCreate: UriParser, table: Table, rootUrls: seq<string>, fetches: seq<FetchOutcome>): (r: Table)
    requires |fetches| == |WhereValid(tryCreate, rootUrls)|
    ensures table.Keys <= r.Keys
  {
    Aggregate(table, Tasks(tryCreate, WhereValid(tryCreate, rootUrls), fetches))
  }

  /** Every key and every stored URL passed `IsValidUrl`. */
  ghost predicate AllValid(tryCreate: UriParser, table: Table) {
    forall key :: key in table ==>
      IsValidUrl(tryCreate, key) && forall u :: u in table[key] ==> IsValidUrl(tryCreate, u)
  }

  /** A string occurring once in a sequence occurs at exactly one position. */
  lemma OccursOnce(s: seq<string>, i: nat)
    requires i < |s| && multiset(s)[s[i]] == 1
    ensures forall j :: 0 <= j < |s| && j != i ==> s[j] != s[i]
  {
    forall j | 0 <= j < |s| && j != i ensures s[j] != s[i] {
      var lo, hi := if i < j then i else j, if i < j then j else i;
      assert s == s[..hi] + s[hi..];
      assert s[lo] in s[..hi] && s[hi..][0] == s[hi];
      assert multiset(s)[s[hi]] == multiset(s[..hi])[s[hi]] + multiset(s[hi..])[s[hi]];
    }
  }

  /** Tasks for valid URLs that found only valid URLs keep a table all-valid. */
  lemma {:induction false} AggregateAllValid(tryCreate: UriParser, table: Table, tasks: seq<Task>)
    requires AllValid(tryCreate, table)
    requires forall t :: t in tasks ==>
               IsValidUrl(tryCreate, t.seed) && forall u :: u in t.found ==> IsValidUrl(tryCreate, u)
    ensures AllValid(tryCreate, Aggregate(table, tasks))
  {
    if tasks != [] {
      var n := |tasks| - 1;
      assert forall t :: t in tasks[..n] ==> t in tasks;
      AggregateAllValid(tryCreate, table, tasks[..n]);
      var before := Aggregate(table, tasks[..n]);
      var after := AppendAll(before, tasks[n].seed, tasks[n].found);
      forall key | key in after
        ensures IsValidUrl(tryCreate, key) && forall u :: u in after[key] ==> IsValidUrl(tryCreate, u)
      {
        if key == tasks[n].seed {
          assert after[key] == ListOf(before, key) + tasks[n].found;
        } else {
          assert after[key] == ListOf(before, key) && key in before;
        }
      }
    }
  }

  /**
   * Only valid URLs are ever stored: if the table held only valid URLs, so does
   * the table after a crawl, keys and lists alike.
   */
  lemma CrawlAllValid(tryCreate: UriParser, table: Table, rootUrls: seq<string>, fetches: seq<FetchOutcome>)
    requires |fetches| == |WhereValid(tryCreate, rootUrls)|
    requires AllValid(tryCreate, table)
    ensures AllValid(tryCreate, Crawl(tryCreate, table, rootUrls, fetches))
  {
    var tasks := Tasks(tryCreate, WhereValid(tryCreate, rootUrls), fetches);
    forall t | t in tasks
      ensures IsValidUrl(tryCreate, t.seed) && forall u :: u in t.found ==> IsValidUrl(tryCreate, u)
    {
      var i :| 0 <= i < |tasks| && tasks[i] == t;
      assert t.seed == WhereValid(tryCreate, rootUrls)[i];
    }
    AggregateAllValid(tryCreate, table, tasks);
  }

  /**
   * After a crawl on an empty table, a URL is a key exactly when it is a valid seed
   * whose task discovered at least one URL: failed or empty seeds get no key.
   */
  lemma CrawlKeys(tryCreate: UriParser, rootUrls: seq<string>, fetches: seq<FetchOutcome>, key: string)
    requires |fetches| == |WhereValid(tryCreate, rootUrls)|
    ensures key in Crawl(tryCreate, map[], rootUrls, fetches) <==>
            exists i :: 0 <= i < |fetches| && WhereValid(tryCreate, rootUrls)[i] == key
                        && Discovered(tryCreate, fetches[i]) != []
  {
    var valid := WhereValid(tryCreate, rootUrls);
    var tasks := Tasks(tryCreate, valid, fetches);
    AggregateKey(map[], tasks, key);
    GatheredEmpty(key, tasks);
    if key in Crawl(tryCreate, map[], rootUrls, fetches) {
      var i :| 0 <= i < |tasks| && tasks[i].seed == key && tasks[i].found != [];
      TaskAt(tryCreate, valid, fetches, i);
    } else {
      forall i | 0 <= i < |fetches| && valid[i] == key
        ensures Discovered(tryCreate, fetches[i]) == []
      {
        TaskAt(tryCreate, valid, fetches, i);
      }
    }
  }

  /** Invalid seeds never become keys: every new key is a valid root URL. */
  lemma CrawlKeysAreValidSeeds(tryCreate: UriParser, table: Table, rootUrls: seq<string>,
                               fetches: seq<FetchOutcome>, key: string)
    requires |fetches| == |WhereValid(tryCreate, rootUrls)|
    requires key in Crawl(tryCreate, table, rootUrls, fetches) && key !in table
    ensures key in rootUrls && IsValidUrl(tryCreate, key)
  {
    var valid := WhereValid(tryCreate, rootUrls);
    var tasks := Tasks(tryCreate, valid, fetches);
    AggregateKey(table, tasks, key);
    GatheredEmpty(key, tasks);
    var i :| 0 <= i < |tasks| && tasks[i].seed == key && tasks[i].found != [];
    assert valid[i] == key;
  }

  /**
   * A seed listed once among the root URLs gets, after the crawl, exactly the
   * URLs its own task discovered, in discovery order, after whatever it held.
   */
  lemma CrawlSingleSeed(tryCreate: UriParser, table: Table, rootUrls: seq<string>,
                        fetches: seq<FetchOutcome>, i: nat)
    requires |fetches| == |WhereValid(tryCreate, rootUrls)| && i < |fetches|
    requires multiset(rootUrls)[WhereValid(tryCreate, rootUrls)[i]] == 1
    ensures var key := WhereValid(tryCreate, rootUrls)[i];
            var result := Crawl(tryCreate, table, rootUrls, fetches);
            && ListOf(result, key) == ListOf(table, key) + Discovered(tryCreate, fetches[i])
            && (key in result <==> key in table || Discovered(tryCreate, fetches[i]) != [])
  {
    var valid := WhereValid(tryCreate, rootUrls);
    var key := valid[i];
    var tasks := Tasks(tryCreate, valid, fetches);
    WhereValidCount(tryCreate, rootUrls, key);
    OccursOnce(valid, i);
    GatheredSingle(key, tasks, i);
    AggregateList(table, tasks, key);
    AggregateKey(table, tasks, key);
  }

  /** The two tasks of the scenario below: `a.test` with its two links, `b.test` with none. */
  lemma ScenarioTasks(tryCreate: UriParser, link1: string, link2: string)
    requires IsValidUrl(tryCreate, "http://a.test") && IsValidUrl(tryCreate, "http://b.test")
    requires !IsValidUrl(tryCreate, "not-a-url")
    requires IsValidUrl(tryCreate, link1) && IsValidUrl(tryCreate, link2)
    ensures var rootUrls := ["http://a.test", "not-a-url", "http://b.test"];
            var fetches := [Loaded(Page(Matched([link1, link2]), NoMatch)), LoadFailed];
            && WhereValid(tryCreate, rootUrls) == ["http://a.test", "http://b.test"]
            && Tasks(tryCreate, WhereValid(tryCreate, rootUrls), fetches)
               == [Task("http://a.test", [link1, link2]), Task("http://b.test", [])]
  {
    var rootUrls := ["http://a.test", "not-a-url", "http://b.test"];
    var fetches := [Loaded(Page(Matched([link1, link2]), NoMatch)), LoadFailed];
    ScenarioSeeds(tryCreate);
    ScenarioDiscovered(tryCreate, link1, link2);
    var tasks := Tasks(tryCreate, WhereValid(tryCreate, rootUrls), fetches);
    assert tasks[0] == Task("http://a.test", [link1, link2]);
    assert tasks[1] == Task("http://b.test", []);
  }

  /** The seed filter keeps `a.test` and `b.test` and drops `not-a-url`. */
  lemma ScenarioSeeds(tryCreate: UriParser)
    requires IsValidUrl(tryCreate, "http://a.test") && IsValidUrl(tryCreate, "http://b.test")
    requires !IsValidUrl(tryCreate, "not-a-url")
    ensures WhereValid(tryCreate, ["http://a.test", "not-a-url", "http://b.test"]) == ["http://a.test", "http://b.test"]
  {
    var rootUrls := ["http://a.test", "not-a-url", "http://b.test"];
    assert WhereValid(tryCreate, rootUrls[2..]) == ["http://b.test"];
    assert WhereValid(tryCreate, rootUrls[1..]) == ["http://b.test"];
  }

  /** The page of `a.test` offers two valid links and no images. */
  lemma ScenarioDiscovered(tryCreate: UriParser, link1: string, link2: string)
    requires IsValidUrl(tryCreate, link1) && IsValidUrl(tryCreate, link2)
    ensures Discovered(tryCreate, Loaded(Page(Matched([link1, link2]), NoMatch))) == [link1, link2]
  {
    assert WhereValid(tryCreate, [link1, link2][1..]) == [link2];
  }

  /**
   * Seeds `a.test` (two links), `not-a-url` (rejected) and `b.test` (load fails):
   * the table holds `a.test` with its two links, and nothing else.
   */
  lemma PartialFailureScenario(tryCreate: UriParser, link1: string, link2: string)
    requires IsValidUrl(tryCreate, "http://a.test") && IsValidUrl(tryCreate, "http://b.test")
    requires !IsValidUrl(tryCreate, "not-a-url")
    requires IsValidUrl(tryCreate, link1) && IsValidUrl(tryCreate, link2)
    ensures var rootUrls := ["http://a.test", "not-a-url", "http://b.test"];
            var fetches := [Loaded(Page(Matched([link1, link2]), NoMatch)), LoadFailed];
            && |fetches| == |WhereValid(tryCreate, rootUrls)|
            && Crawl(tryCreate, map[], rootUrls, fetches) == map["http://a.test" := [link1, link2]]
  {
    ScenarioTasks(tryCreate, link1, link2);
    ScenarioAggregate(link1, link2);
  }

  /** Running the scenario's two tasks on an empty table. */
  lemma ScenarioAggregate(link1: string, link2: string)
    ensures Aggregate(map[], [Task("http://a.test", [link1, link2]), Task("http://b.test", [])])
            == map["http://a.test" := [link1, link2]]
  {
    var a, b := Task("http://a.test", [link1, link2]), Task("http://b.test", []);
    var tasks := [a, b];
    AggregateSnoc(map[], [], a);
    AggregateSnoc(map[], [a], b);
    assert [] + [a] == [a] && [a] + [b] == tasks;
    var first := Aggregate(map[], [a]);
    assert first == AppendAll(map[], "http://a.test", [link1, link2]);
    assert Aggregate(map[], tasks) == AppendAll(first, "http://b.test", []) == first;
    var expected := map["http://a.test" := [link1, link2]];
    forall key ensures (key in first <==> key in expected) && ListOf(first, key) == ListOf(expected, key) {
    }
    TablesEqual(first, expected);
  }

  class WebCrawler {
    /** `_resultsDictionary`: seed URL to the URLs found on it. */
    var resultsDictionary: Table

    /** No key is ever stored with an empty list. */
    ghost predicate Valid()
      reads this
    {
      NoEmptyLists(resultsDictionary)
    }

    constructor ()
      ensures Valid() && resultsDictionary == map[]
    {
      resultsDictionary := map[];
    }

    /**
     * `AddOrUpdate(rootUrl, new List { fetchedUrl }, (key, list) => { list.Add(fetchedUrl); ... })`:
     * a new key gets a one-element list, an existing key's list grows at its end.
     */
    method AddUrlToDictionary(rootUrl: string, fetchedUrl: string)
      requires Valid()
      modifies this
      ensures Valid()
      ensures resultsDictionary == Appended(old(resultsDictionary), rootUrl, fetchedUrl)
    {
      if rootUrl in resultsDictionary {
        var existingList := resultsDictionary[rootUrl];
        resultsDictionary := resultsDictionary[rootUrl := existingList + [fetchedUrl]];
      } else {
        resultsDictionary := resultsDictionary[rootUrl := [fetchedUrl]];
      }
    }

    /**
     * `CrawlAsync`: the hrefs, then the image sources, of the page the load produced.
     * Each `AddRange` adds what the enumeration yielded before it ended or threw; the
     * exception handler only logs, so the list built so far is returned.
     */
    method CrawlAsync(tryCreate: UriParser, fetch: FetchOutcome) returns (urls: seq<string>)
      ensures urls == Discovered(tryCreate, fetch)
    {
      urls := [];
      match fetch {
        case LoadFailed =>
        case Loaded(document) =>
          var hrefs := ExtractUrlsFromTags(tryCreate, document.anchorHrefs);
          urls := urls + hrefs.urls;
          if hrefs.Complete? {
            var srcs := ExtractUrlsFromTags(tryCreate, document.imageSrcs);
            urls := urls + srcs.urls;
          }
      }
    }

    /**
     * The body of one crawl task: crawl `url`, then append each URL found under it,
     * in the order found.
     */
    method RunTask(tryCreate: UriParser, url: string, fetch: FetchOutcome)
      requires Valid()
      modifies this
      ensures Valid()
      ensures resultsDictionary == AppendAll(old(resultsDictionary), url, Discovered(tryCreate, fetch))
    {
      var fetchedUrls := CrawlAsync(tryCreate, fetch);
      var j := 0;
      while j < |fetchedUrls|
        invariant 0 <= j <= |fetchedUrls|
        invariant Valid()
        invariant resultsDictionary == AppendAll(old(resultsDictionary), url, fetchedUrls[..j])
      {
        AddUrlToDictionary(url, fetchedUrls[j]);
        AppendAllStep(old(resultsDictionary), url, fetchedUrls, j);
        j := j + 1;
      }
      assert fetchedUrls[..j] == fetchedUrls;
    }

    /**
     * `CrawlAndSaveAsync`: keep the valid seeds, run one task per valid seed (task
     * `i` sees fetch outcome `fetches[i]`), then write the report. The table is not
     * cleared first.
     */
    method CrawlAndSave(tryCreate: UriParser, rootUrls: seq<string>, fetches: seq<FetchOutcome>)
      returns (lines: seq<string>, order: seq<string>)
      requires Valid()
      requires |fetches| == |WhereValid(tryCreate, rootUrls)|
      modifies this
      ensures Valid()
      ensures resultsDictionary == Crawl(tryCreate, old(resultsDictionary), rootUrls, fetches)
      ensures IsEnumeration(order, resultsDictionary.Keys)
      ensures lines == Render(resultsDictionary, order)
      ensures ParseReport(lines).Some? && forall e :: e in ParseReport(lines).value ==> e.1 != []
    {
      var validRootUrls := WhereValid(tryCreate, rootUrls);
      ghost var tasks := Tasks(tryCreate, validRootUrls, fetches);
      var i := 0;
      while i < |validRootUrls|
        invariant 0 <= i <= |validRootUrls|
        invariant Valid()
        invariant resultsDictionary == Aggregate(old(resultsDictionary), tasks[..i])
      {
        RunTask(tryCreate, validRootUrls[i], fetches[i]);
        AggregateStep(old(resultsDictionary), tasks, i);
        i := i + 1;
      }
      assert tasks[..i] == tasks;
      lines, order := SaveResultsToFile();
    }

    /**
     * `SaveResultsToFileAsync`: for each entry, in whatever order the table
     * enumerates its keys, the key line, the indented URL lines, an empty line.
     */
    method SaveResultsToFile() returns (lines: seq<string>, order: seq<string>)
      requires Valid()
      ensures IsEnumeration(order, resultsDictionary.Keys)
      ensures lines == Render(resultsDictionary, order)
      ensures ParseReport(lines).Some? && forall e :: e in ParseReport(lines).value ==> e.1 != []
    {
      lines, order := [], [];
      var pending := resultsDictionary.Keys;
      while pending != {}
        invariant pending <= resultsDictionary.Keys
        invariant IsEnumeration(order, resultsDictionary.Keys - pending)
        invariant forall k :: k in order ==> k in resultsDictionary
        invariant lines == Render(resultsDictionary, order)
        decreases pending
      {
        var key :| key in pending;
        var urls := resultsDictionary[key];
        ghost var start := lines;
        lines := lines + [key];
        var j := 0;
        while j < |urls|
          invariant 0 <= j <= |urls|
          invariant lines == start + [key] + Indented(urls[..j])
        {
          lines := lines + [Indent + urls[j]];
          j := j + 1;
        }
        lines := lines + [""];
        assert urls[..j] == urls;
        RenderSnoc(resultsDictionary, order, key);
        order := order + [key];
        pending := pending - {key};
      }
      ReportBlocksNonEmpty(resultsDictionary, order);
    }
  }
}

/**
  The web crawler: a breadth-first download of the pages reachable from a
  start URL within a depth, throttled per host, optionally restricted to a
  list of hosts.

  The downloader (`Downloader.download` with `Document.extractLinks`) and
  `URLUtils.getHost` are functions fixed at construction. The thread pools
  and the phaser are not modelled: every task dispatched to the download
  pool runs to completion before the next one starts, in dispatch order.
*/
module Crawler {
  import opened Wrappers
  import opened Streams

  // ---------------------------------------------------------------------
  // The per-host throttle
  // ---------------------------------------------------------------------

  /**
    `HostWorker`: admits at most `perHost` tasks of one host to the
    download pool at a time and queues the rest. The ghost logs record
    every task submitted, every task handed to the pool and how many of
    those have finished.
  */
  class HostWorker<T> {
    const perHost: int
    var working: int
    var queue: seq<T>
    ghost var submitted: seq<T>
    ghost var dispatched: seq<T>
    ghost var finished: nat

    /** The number of tasks that may run at once (none when `perHost` is not positive). */
    function Limit(): nat {
      if perHost < 0 then 0 else perHost
    }

    /**
      `working` counts the dispatched tasks that have not finished and
      never exceeds the limit; tasks wait only while the limit is reached;
      tasks are handed to the pool in the order they were submitted.
    */
    ghost predicate Valid()
      reads this
    {
      && 0 <= working <= Limit()
      && (queue != [] ==> working == Limit())
      && submitted == dispatched + queue
      && working == |dispatched| - finished
    }

    constructor (perHost: int)
      ensures Valid() && this.perHost == perHost
      ensures working == 0 && queue == [] && submitted == [] && dispatched == [] && finished == 0
    {
      this.perHost := perHost;
      working := 0;
      queue := [];
      submitted := [];
      dispatched := [];
      finished := 0;
    }

    /** `addTask`: dispatch the task when below the limit, otherwise queue it at the back. */
    method AddTask(task: T) returns (started: Option<T>)
      requires Valid()
      modifies this
      ensures Valid()
      ensures submitted == old(submitted) + [task] && finished == old(finished)
      ensures old(working) < perHost ==>
                && started == Some(task) && working == old(working) + 1
                && queue == old(queue) && dispatched == old(dispatched) + [task]
      ensures old(working) >= perHost ==>
                && started == None && working == old(working)
                && queue == old(queue) + [task] && dispatched == old(dispatched)
    {
      if working >= perHost {
        queue := queue + [task];
        started := None;
      } else {
        started := Some(task);
        working := working + 1;
        dispatched := dispatched + [task];
      }
      submitted := submitted + [task];
    }

    /**
      `runTask`, called when a dispatched task finishes: hand the oldest
      queued task to the pool in its place, or count one task fewer.
    */
    method RunTask() returns (started: Option<T>)
      requires Valid() && working > 0
      modifies this
      ensures Valid()
      ensures submitted == old(submitted) && finished == old(finished) + 1
      ensures old(queue) != [] ==>
                && started == Some(old(queue)[0]) && working == old(working)
                && queue == old(queue)[1..] && dispatched == old(dispatched) + [old(queue)[0]]
      ensures old(queue) == [] ==>
                && started == None && working == old(working) - 1
                && queue == [] && dispatched == old(dispatched)
    {
      if queue != [] {
        started := Some(queue[0]);
        dispatched := dispatched + [queue[0]];
        queue := queue[1..];
        assert submitted == dispatched + queue;
      } else {
        started := None;
        working := working - 1;
      }
      finished := finished + 1;
    }
  }

  // ---------------------------------------------------------------------
  // Pages, links and the state of one crawl
  // ---------------------------------------------------------------------

  /** A downloaded page; `links` is `None` when `extractLinks` fails. */
  datatype Document = Document(links: Option<seq<string>>)

  /** `Downloader.download`: the page, or the message of the `IOException`. */
  type Downloader = string -> Result<Document, string>

  /** `URLUtils.getHost`: the host, or `None` for a malformed URL. */
  type HostOf = string -> Option<string>

  /** What the crawl records for a URL that failed. */
  datatype CrawlError = MalformedUrl | DownloadFailed(message: string)

  /** The links the crawl follows from a page: none when extraction fails. */
  function LinksOf(doc: Document): seq<string> {
    if doc.links.Some? then doc.links.value else []
  }

  /** The sets one `download` call shares between its tasks, and the next layer being collected. */
  datatype Crawl = Crawl(result: set<string>, exceptions: map<string, CrawlError>, visited: set<string>, newLayer: seq<string>)

  /** The extractor task: every link not yet visited is marked visited and joins the next layer. */
  function AddLinks(c: Crawl, links: seq<string>): (r: Crawl)
    ensures r.result == c.result && r.exceptions == c.exceptions
  {
    if links == [] then c
    else
      var s := AddLinks(c, links[..|links| - 1]);
      var l := links[|links| - 1];
      if l in s.visited then s else s.(visited := s.visited + {l}, newLayer := s.newLayer + [l])
  }

  /** After the extractor every link is visited. */
  lemma {:induction false} AddLinksVisited(c: Crawl, links: seq<string>)
    ensures AddLinks(c, links).visited == c.visited + (set l | l in links)
  {
    if links != [] {
      var init := links[..|links| - 1];
      AddLinksVisited(c, init);
      assert links == init + [links[|links| - 1]];
    }
  }

  /** The extractor only appends to the next layer, and only links that were not visited. */
  lemma {:induction false} AddLinksAppends(c: Crawl, links: seq<string>)
    ensures var r := AddLinks(c, links);
            && |c.newLayer| <= |r.newLayer| && r.newLayer[..|c.newLayer|] == c.newLayer
            && (forall k :: |c.newLayer| <= k < |r.newLayer| ==> r.newLayer[k] in links && r.newLayer[k] !in c.visited)
  {
    if links != [] {
      var init, l := links[..|links| - 1], links[|links| - 1];
      AddLinksAppends(c, init);
      AddLinksVisited(c, init);
      var s := AddLinks(c, init);
      assert links == init + [l];
      if l !in s.visited {
        var r := AddLinks(c, links);
        assert r.newLayer == s.newLayer + [l];
        assert r.newLayer[..|c.newLayer|] == s.newLayer[..|c.newLayer|];
      }
    }
  }

  /** Every link that was not visited joins the next layer. */
  lemma {:induction false} AddLinksCovers(c: Crawl, links: seq<string>)
    ensures forall l :: l in links && l !in c.visited ==> l in AddLinks(c, links).newLayer
  {
    if links != [] {
      var init, last := links[..|links| - 1], links[|links| - 1];
      AddLinksCovers(c, init);
      AddLinksVisited(c, init);
      assert links == init + [last];
    }
  }

  /** A next layer of distinct visited links stays so. */
  lemma {:induction false} AddLinksDistinct(c: Crawl, links: seq<string>)
    requires Distinct(c.newLayer) && forall k :: 0 <= k < |c.newLayer| ==> c.newLayer[k] in c.visited
    ensures var r := AddLinks(c, links);
            Distinct(r.newLayer) && forall k :: 0 <= k < |r.newLayer| ==> r.newLayer[k] in r.visited
  {
    if links != [] {
      AddLinksDistinct(c, links[..|links| - 1]);
    }
  }

  /**
    After the extractor: every link is visited; the next layer grows by
    links that were not visited before, each once and in order, and every
    such link joins it.
  */
  lemma AddLinksSpec(c: Crawl, links: seq<string>)
    ensures var r := AddLinks(c, links);
            && r.visited == c.visited + (set l | l in links)
            && |c.newLayer| <= |r.newLayer| && r.newLayer[..|c.newLayer|] == c.newLayer
            && (forall k :: |c.newLayer| <= k < |r.newLayer| ==> r.newLayer[k] in links && r.newLayer[k] !in c.visited)
            && (forall l :: l in links && l !in c.visited ==> l in r.newLayer)
            && (Distinct(c.newLayer) && (forall k :: 0 <= k < |c.newLayer| ==> c.newLayer[k] in c.visited) ==>
                  Distinct(r.newLayer) && forall k :: 0 <= k < |r.newLayer| ==> r.newLayer[k] in r.visited)
  {
    AddLinksVisited(c, links);
    AddLinksAppends(c, links);
    AddLinksCovers(c, links);
    if Distinct(c.newLayer) && (forall k :: 0 <= k < |c.newLayer| ==> c.newLayer[k] in c.visited) {
      AddLinksDistinct(c, links);
    }
  }

  /** The effect of the download task for `url` at remaining depth `depth`. */
  function TaskEffect(downloader: Downloader, c: Crawl, url: string, depth: int): Crawl {
    match downloader(url)
    case Failure(message) => c.(exceptions := c.exceptions[url := DownloadFailed(message)])
    case Success(doc) =>
      var fetched := c.(result := c.result + {url}, visited := c.visited + {url});
      if depth != 1 then AddLinks(fetched, LinksOf(doc)) else fetched
  }

  /** A page links to `link`. */
  ghost predicate LinksTo(downloader: Downloader, page: string, link: string) {
    downloader(page).Success? && link in LinksOf(downloader(page).value)
  }

  /** `to` is `from` or lies at most `n` links away from it. */
  ghost predicate Reachable(downloader: Downloader, from: string, to: string, n: nat)
    decreases n
  {
    to == from || (n > 0 && exists page :: Reachable(downloader, from, page, n - 1) && LinksTo(downloader, page, to))
  }

  /** What is reachable in `n` steps is reachable in more. */
  lemma {:induction false} ReachableMonotone(downloader: Downloader, from: string, to: string, n: nat, m: nat)
    requires n <= m && Reachable(downloader, from, to, n)
    ensures Reachable(downloader, from, to, m)
    decreases n
  {
    if to != from {
      var page :| Reachable(downloader, from, page, n - 1) && LinksTo(downloader, page, to);
      ReachableMonotone(downloader, from, page, n - 1, m - 1);
    }
  }

  /** The hosts registered up front: those of the host list, if one is given. */
  function Listed(hosts: Option<seq<string>>): set<string> {
    if hosts.Some? then set h | h in hosts.value else {}
  }

  /** The hosts of the well-formed URLs among `urls`. */
  function HostsOf(getHost: HostOf, urls: set<string>): set<string> {
    set u | u in urls && getHost(u).Some? :: getHost(u).value
  }

  /**
    How a crawl has routed the URLs it attempted: a URL lands in `result`
    after a successful download and in `exceptions` after a malformed host
    or a failed download, never in both; `fetched` lists the URLs handed to
    the downloader, each once.
  */
  ghost predicate Routed(downloader: Downloader, getHost: HostOf, c: Crawl, attempted: seq<string>, fetched: seq<string>) {
    && Distinct(attempted) && Distinct(fetched)
    && (forall u :: u in fetched ==> u in attempted)
    && (forall u :: u in c.result ==> u !in c.exceptions)
    && (forall u :: u in c.result || u in c.exceptions ==> u in attempted)
    && (forall u :: u in fetched <==> u in c.result || (u in c.exceptions && c.exceptions[u].DownloadFailed?))
    && (forall u :: u in c.result ==> getHost(u).Some? && downloader(u).Success?)
    && (forall u :: u in c.exceptions ==> (c.exceptions[u] == MalformedUrl <==> getHost(u).None?))
    && (forall u :: u in c.exceptions && c.exceptions[u].DownloadFailed? ==>
          getHost(u).Some? && downloader(u) == Failure(c.exceptions[u].message))
  }

  /** `downloadLinks` passes the host check: the URL has a host, and that host is registered unless hosts may be added. */
  predicate Admitted(getHost: HostOf, known: set<string>, url: string, needToAddHosts: bool) {
    getHost(url).Some? && (needToAddHosts || getHost(url).value in known)
  }

  /** The effect of `downloadLinks` on the crawl, `known` being the registered hosts. */
  function LinkStep(downloader: Downloader, getHost: HostOf, known: set<string>, c: Crawl, url: string, depth: int,
                    needToAddHosts: bool): Crawl
  {
    if getHost(url).None? then c.(exceptions := c.exceptions[url := MalformedUrl])
    else if !Admitted(getHost, known, url, needToAddHosts) then c
    else TaskEffect(downloader, c, url, depth)
  }

  /** The hosts registered after `downloadLinks`. */
  function KnownAfter(getHost: HostOf, known: set<string>, url: string, needToAddHosts: bool): set<string> {
    if Admitted(getHost, known, url, needToAddHosts) then known + {getHost(url).value} else known
  }

  /**
    What one layer of the crawl starts from: the start URL, the depth, the
    depth that remains, whether hosts may be added, the hosts registered up
    front, the layer's URLs, and the URLs attempted and visited before it.
  */
  datatype Layer = Layer(start: string, depth: int, remaining: int, needToAddHosts: bool, keys: set<string>,
                         queue: seq<string>, attempted: seq<string>, visited: set<string>)

  /**
    A layer is ready: its URLs are new, distinct and `depth - remaining`
    links from the start; they are all visited unless the layer is the
    start URL alone; before a non-empty layer every attempted URL is visited.
  */
  ghost predicate LayerReady(downloader: Downloader, L: Layer) {
    && 1 <= L.remaining <= L.depth
    && Distinct(L.queue)
    && (forall u :: u in L.queue ==> u !in L.attempted && Reachable(downloader, L.start, u, L.depth - L.remaining))
    && (|L.queue| <= 1 || forall u :: u in L.queue ==> u in L.visited)
    && (L.queue != [] ==> forall u :: u in L.attempted ==> u in L.visited)
  }

  /**
    The registered hosts `known` are the listed ones plus, when hosts may
    be added, those of the URLs reported; every downloaded URL's host is
    registered.
  */
  ghost predicate HostsTracked(getHost: HostOf, L: Layer, known: set<string>, r: Crawl, fetched: seq<string>) {
    && known == L.keys + (if L.needToAddHosts then HostsOf(getHost, r.result + r.exceptions.Keys) else {})
    && (forall u :: u in fetched ==> getHost(u).Some? && getHost(u).value in known)
  }

  /** Every URL attempted lies within `depth - 1` links of the start, every link collected one link beyond the layer. */
  ghost predicate InReach(downloader: Downloader, L: Layer, attempted: seq<string>, newLayer: seq<string>) {
    && 1 <= L.remaining <= L.depth
    && (forall u :: u in attempted ==> Reachable(downloader, L.start, u, L.depth - 1))
    && (forall l :: l in newLayer ==> Reachable(downloader, L.start, l, L.depth - L.remaining + 1))
  }

  /**
    The next layer after the first `k` URLs of layer `L`: visited links,
    each once, neither attempted nor still waiting in this layer; it is
    empty before the first URL, and while URLs remain or it is non-empty
    every attempted URL is visited.
  */
  ghost predicate Frontier(L: Layer, k: int, visited: set<string>, newLayer: seq<string>, attempted: seq<string>) {
    && 0 <= k <= |L.queue|
    && attempted == L.attempted + L.queue[..k]
    && L.visited <= visited
    && Distinct(newLayer)
    && (k == 0 ==> newLayer == [])
    && (forall l :: l in newLayer ==> l in visited && l !in attempted && l !in L.queue[k..])
    && (k < |L.queue| || newLayer != [] ==> forall u :: u in attempted ==> u in visited)
  }

  /** The crawl after the first `k` URLs of layer `L`. */
  ghost predicate Progress(downloader: Downloader, getHost: HostOf, L: Layer, k: int, known: set<string>,
                           r: Crawl, attempted: seq<string>, fetched: seq<string>)
  {
    && HostsTracked(getHost, L, known, r, fetched)
    && Routed(downloader, getHost, r, attempted, fetched)
    && InReach(downloader, L, attempted, r.newLayer)
    && Frontier(L, k, r.visited, r.newLayer, attempted)
  }

  /** `HostsOf` grows by the host of one more URL. */
  lemma HostsOfAdd(getHost: HostOf, urls: set<string>, u: string)
    ensures HostsOf(getHost, urls + {u}) ==
              HostsOf(getHost, urls) + (if getHost(u).Some? then {getHost(u).value} else {})
  {
  }

  /** The download task reports exactly its URL, keeps what was visited, and adds links only after a success. */
  lemma TaskEffectSpec(downloader: Downloader, c: Crawl, url: string, depth: int)
    ensures var r := TaskEffect(downloader, c, url, depth);
            && r.result + r.exceptions.Keys == c.result + c.exceptions.Keys + {url}
            && c.visited <= r.visited
            && (downloader(url).Success? ==> r.result == c.result + {url} && r.exceptions == c.exceptions && url in r.visited)
            && (downloader(url).Failure? ==>
                  r == c.(exceptions := c.exceptions[url := DownloadFailed(downloader(url).error)]))
            && |c.newLayer| <= |r.newLayer| && r.newLayer[..|c.newLayer|] == c.newLayer
            && (forall k :: |c.newLayer| <= k < |r.newLayer| ==>
                  r.newLayer[k] !in c.visited && r.newLayer[k] != url && LinksTo(downloader, url, r.newLayer[k]))
            && (Distinct(c.newLayer) && (forall k :: 0 <= k < |c.newLayer| ==> c.newLayer[k] in c.visited) ==>
                  Distinct(r.newLayer) && forall k :: 0 <= k < |r.newLayer| ==> r.newLayer[k] in r.visited)
  {
    if downloader(url).Success? {
      var fetched := c.(result := c.result + {url}, visited := c.visited + {url});
      if depth != 1 {
        AddLinksSpec(fetched, LinksOf(downloader(url).value));
      }
    }
  }

  /** The next URL of a layer has not been attempted yet. */
  lemma NextIsNew(downloader: Downloader, L: Layer, k: int, visited: set<string>, newLayer: seq<string>, attempted: seq<string>)
    requires LayerReady(downloader, L) && Frontier(L, k, visited, newLayer, attempted) && k < |L.queue|
    ensures L.queue[k] !in attempted
  {
    var u := L.queue[k];
    assert u in L.queue;
    assert forall j :: 0 <= j < k ==> L.queue[j] != u;
    assert u !in L.queue[..k];
  }

  /** A URL that adds no link keeps the next layer as it is. */
  lemma FrontierNoLinks(downloader: Downloader, L: Layer, k: int, visited: set<string>, newLayer: seq<string>,
                        attempted: seq<string>, visited': set<string>)
    requires LayerReady(downloader, L) && Frontier(L, k, visited, newLayer, attempted) && k < |L.queue|
    requires visited <= visited'
    requires L.queue[k] in visited' || (k == 0 && |L.queue| == 1)
    ensures Frontier(L, k + 1, visited', newLayer, attempted + [L.queue[k]])
  {
    var u := L.queue[k];
    assert L.queue[..k + 1] == L.queue[..k] + [u];
    assert L.queue[k..] == [u] + L.queue[k + 1..];
    if k + 1 < |L.queue| {
      assert L.queue[k + 1] in L.queue;
      assert u in L.queue;
    }
  }

  /** A downloaded URL's new links extend the next layer. */
  lemma FrontierTask(downloader: Downloader, L: Layer, k: int, c: Crawl, attempted: seq<string>)
    requires LayerReady(downloader, L) && Frontier(L, k, c.visited, c.newLayer, attempted) && k < |L.queue|
    ensures var r := TaskEffect(downloader, c, L.queue[k], L.remaining);
            Frontier(L, k + 1, r.visited, r.newLayer, attempted + [L.queue[k]])
  {
    var u := L.queue[k];
    var r := TaskEffect(downloader, c, u, L.remaining);
    TaskEffectSpec(downloader, c, u, L.remaining);
    if downloader(u).Failure? || |r.newLayer| == |c.newLayer| {
      assert r.newLayer == r.newLayer[..|c.newLayer|] == c.newLayer;
      FrontierNoLinks(downloader, L, k, c.visited, c.newLayer, attempted, r.visited);
    } else {
      var a' := attempted + [u];
      assert L.queue[..k + 1] == L.queue[..k] + [u];
      assert L.queue[k..] == [u] + L.queue[k + 1..];
      assert u in L.queue;
      forall j | 0 <= j < |r.newLayer| ensures r.newLayer[j] in r.visited && r.newLayer[j] !in a' && r.newLayer[j] !in L.queue[k + 1..] {
        if j < |c.newLayer| {
          assert r.newLayer[j] == c.newLayer[j];
        } else {
          var l := r.newLayer[j];
        }
      }
    }
  }

  /** A link out of a page reachable in `n` steps is reachable in `n + 1`. */
  lemma ReachableStep(downloader: Downloader, from: string, page: string, to: string, n: nat)
    requires Reachable(downloader, from, page, n) && LinksTo(downloader, page, to)
    ensures Reachable(downloader, from, to, n + 1)
  {
  }

  /** The links collected from a URL in reach are one link further. */
  lemma InReachTask(downloader: Downloader, L: Layer, k: int, c: Crawl, attempted: seq<string>)
    requires LayerReady(downloader, L) && 0 <= k < |L.queue|
    requires InReach(downloader, L, attempted, c.newLayer)
    ensures var r := TaskEffect(downloader, c, L.queue[k], L.remaining);
            InReach(downloader, L, attempted + [L.queue[k]], r.newLayer)
  {
    var u := L.queue[k];
    var r := TaskEffect(downloader, c, u, L.remaining);
    var n := L.depth - L.remaining;
    assert u in L.queue;
    InReachAttempt(downloader, L, k, attempted, c.newLayer);
    TaskEffectSpec(downloader, c, u, L.remaining);
    forall j | 0 <= j < |r.newLayer| ensures Reachable(downloader, L.start, r.newLayer[j], n + 1) {
      if j < |c.newLayer| {
        assert r.newLayer[j] == c.newLayer[j] && c.newLayer[j] in c.newLayer;
      } else {
        ReachableStep(downloader, L.start, u, r.newLayer[j], n);
      }
    }
  }

  /** Attempting a URL of the layer keeps every attempted URL in reach. */
  lemma InReachAttempt(downloader: Downloader, L: Layer, k: int, attempted: seq<string>, newLayer: seq<string>)
    requires LayerReady(downloader, L) && 0 <= k < |L.queue|
    requires InReach(downloader, L, attempted, newLayer)
    ensures InReach(downloader, L, attempted + [L.queue[k]], newLayer)
  {
    var u := L.queue[k];
    assert u in L.queue;
    ReachableMonotone(downloader, L.start, u, L.depth - L.remaining, L.depth - 1);
  }

  /** A malformed URL adds no host. */
  lemma HostsTrackedMalformed(getHost: HostOf, L: Layer, known: set<string>, r: Crawl, fetched: seq<string>, u: string)
    requires HostsTracked(getHost, L, known, r, fetched) && getHost(u).None?
    ensures HostsTracked(getHost, L, known, r.(exceptions := r.exceptions[u := MalformedUrl]), fetched)
  {
    var r' := r.(exceptions := r.exceptions[u := MalformedUrl]);
    HostsOfAdd(getHost, r.result + r.exceptions.Keys, u);
    assert r'.result + r'.exceptions.Keys == r.result + r.exceptions.Keys + {u};
  }

  /** A malformed URL is reported as such, and nothing else changes. */
  lemma RoutedMalformed(downloader: Downloader, getHost: HostOf, r: Crawl, attempted: seq<string>, fetched: seq<string>, u: string)
    requires Routed(downloader, getHost, r, attempted, fetched) && u !in attempted && getHost(u).None?
    ensures Routed(downloader, getHost, r.(exceptions := r.exceptions[u := MalformedUrl]), attempted + [u], fetched)
  {
    DistinctSnoc(attempted, u);
  }

  /** A skipped URL is attempted, and nothing else changes. */
  lemma RoutedSkipped(downloader: Downloader, getHost: HostOf, r: Crawl, attempted: seq<string>, fetched: seq<string>, u: string)
    requires Routed(downloader, getHost, r, attempted, fetched) && u !in attempted
    ensures Routed(downloader, getHost, r, attempted + [u], fetched)
  {
    DistinctSnoc(attempted, u);
  }

  /** A downloaded URL is reported once, as a success or as a failure. */
  lemma RoutedTask(downloader: Downloader, getHost: HostOf, r: Crawl, attempted: seq<string>, fetched: seq<string>,
                   u: string, depth: int)
    requires Routed(downloader, getHost, r, attempted, fetched) && u !in attempted && getHost(u).Some?
    ensures Routed(downloader, getHost, TaskEffect(downloader, r, u, depth), attempted + [u], fetched + [u])
  {
    DistinctSnoc(attempted, u);
    DistinctSnoc(fetched, u);
    TaskEffectSpec(downloader, r, u, depth);
  }

  /** A malformed URL of a layer keeps the crawl's progress. */
  lemma ProgressMalformed(downloader: Downloader, getHost: HostOf, L: Layer, k: int, known: set<string>,
                          r: Crawl, attempted: seq<string>, fetched: seq<string>)
    requires LayerReady(downloader, L) && 0 <= k < |L.queue| && getHost(L.queue[k]).None?
    requires Progress(downloader, getHost, L, k, known, r, attempted, fetched)
    ensures Progress(downloader, getHost, L, k + 1, known, r.(exceptions := r.exceptions[L.queue[k] := MalformedUrl]),
                     attempted + [L.queue[k]], fetched)
  {
    var u := L.queue[k];
    NextIsNew(downloader, L, k, r.visited, r.newLayer, attempted);
    InReachAttempt(downloader, L, k, attempted, r.newLayer);
    HostsTrackedMalformed(getHost, L, known, r, fetched, u);
    RoutedMalformed(downloader, getHost, r, attempted, fetched, u);
    FrontierNoLinks(downloader, L, k, r.visited, r.newLayer, attempted, r.visited);
  }

  /** A URL of a layer skipped for its host keeps the crawl's progress. */
  lemma ProgressSkipped(downloader: Downloader, getHost: HostOf, L: Layer, k: int, known: set<string>,
                        r: Crawl, attempted: seq<string>, fetched: seq<string>)
    requires LayerReady(downloader, L) && 0 <= k < |L.queue|
    requires Progress(downloader, getHost, L, k, known, r, attempted, fetched)
    ensures Progress(downloader, getHost, L, k + 1, known, r, attempted + [L.queue[k]], fetched)
  {
    var u := L.queue[k];
    NextIsNew(downloader, L, k, r.visited, r.newLayer, attempted);
    InReachAttempt(downloader, L, k, attempted, r.newLayer);
    RoutedSkipped(downloader, getHost, r, attempted, fetched, u);
    FrontierNoLinks(downloader, L, k, r.visited, r.newLayer, attempted, r.visited);
  }

  /** A downloaded URL of a layer keeps the crawl's progress. */
  lemma ProgressTask(downloader: Downloader, getHost: HostOf, L: Layer, k: int, known: set<string>,
                     r: Crawl, attempted: seq<string>, fetched: seq<string>)
    requires LayerReady(downloader, L) && 0 <= k < |L.queue| && Admitted(getHost, known, L.queue[k], L.needToAddHosts)
    requires Progress(downloader, getHost, L, k, known, r, attempted, fetched)
    ensures Progress(downloader, getHost, L, k + 1, known + {getHost(L.queue[k]).value},
                     TaskEffect(downloader, r, L.queue[k], L.remaining), attempted + [L.queue[k]], fetched + [L.queue[k]])
  {
    var u := L.queue[k];
    var r' := TaskEffect(downloader, r, u, L.remaining);
    assert u in L.queue;
    NextIsNew(downloader, L, k, r.visited, r.newLayer, attempted);
    HostsOfAdd(getHost, r.result + r.exceptions.Keys, u);
    TaskEffectSpec(downloader, r, u, L.remaining);
    assert HostsTracked(getHost, L, known + {getHost(u).value}, r', fetched + [u]);
    RoutedTask(downloader, getHost, r, attempted, fetched, u, L.remaining);
    FrontierTask(downloader, L, k, r, attempted);
    InReachTask(downloader, L, k, r, attempted);
  }

  /** One URL of a layer keeps the crawl's progress. */
  lemma ProgressStep(downloader: Downloader, getHost: HostOf, L: Layer, k: int, known: set<string>,
                     r: Crawl, attempted: seq<string>, fetched: seq<string>)
    requires LayerReady(downloader, L) && k < |L.queue|
    requires Progress(downloader, getHost, L, k, known, r, attempted, fetched)
    ensures var u := L.queue[k];
            var admitted := Admitted(getHost, known, u, L.needToAddHosts);
            Progress(downloader, getHost, L, k + 1, KnownAfter(getHost, known, u, L.needToAddHosts),
                     LinkStep(downloader, getHost, known, r, u, L.remaining, L.needToAddHosts),
                     attempted + [u], if admitted then fetched + [u] else fetched)
  {
    var u := L.queue[k];
    if getHost(u).None? {
      ProgressMalformed(downloader, getHost, L, k, known, r, attempted, fetched);
    } else if !Admitted(getHost, known, u, L.needToAddHosts) {
      ProgressSkipped(downloader, getHost, L, k, known, r, attempted, fetched);
    } else {
      ProgressTask(downloader, getHost, L, k, known, r, attempted, fetched);
    }
  }

  /** Appending an element not yet present keeps a sequence distinct. */
  lemma DistinctSnoc<T>(xs: seq<T>, x: T)
    requires Distinct(xs) && x !in xs
    ensures Distinct(xs + [x])
  {
  }

  /**
    The crawl between layers, `i` being the depth that remains: before the
    first layer only the start URL waits; afterwards the waiting URLs are
    distinct, visited, new, and `depth - i` links from the start, and every
    URL attempted so far is visited unless nothing waits.
  */
  ghost predicate Crawling(downloader: Downloader, getHost: HostOf, start: string, depth: int, i: int, needToAddHosts: bool,
                           keys: set<string>, known: set<string>, queue: seq<string>, c: Crawl,
                           attempted: seq<string>, fetched: seq<string>)
  {
    && i <= depth && (i < depth ==> 0 <= i)
    && (i == depth ==> queue == [start] && attempted == [] && fetched == [] && c == Crawl({}, map[], {}, []))
    && (i < depth ==> Distinct(queue) && forall u :: u in queue ==>
          u in c.visited && u !in attempted && Reachable(downloader, start, u, depth - i))
    && (i < depth && queue != [] ==> forall u :: u in attempted ==> u in c.visited)
    && c.newLayer == []
    && Routed(downloader, getHost, c, attempted, fetched)
    && (forall u :: u in fetched ==> getHost(u).Some? && getHost(u).value in known)
    && known == keys + (if needToAddHosts then HostsOf(getHost, c.result + c.exceptions.Keys) else {})
    && (forall u :: u in attempted ==> depth >= 1 && Reachable(downloader, start, u, depth - 1))
  }

  /** A layer starts ready and with nothing of it done. */
  lemma LayerStart(downloader: Downloader, getHost: HostOf, start: string, depth: int, i: int, needToAddHosts: bool,
                   keys: set<string>, known: set<string>, queue: seq<string>, c: Crawl,
                   attempted: seq<string>, fetched: seq<string>)
    requires i >= 1
    requires Crawling(downloader, getHost, start, depth, i, needToAddHosts, keys, known, queue, c, attempted, fetched)
    ensures var L := Layer(start, depth, i, needToAddHosts, keys, queue, attempted, c.visited);
            LayerReady(downloader, L) && Progress(downloader, getHost, L, 0, known, c, attempted, fetched)
  {
    assert queue[..0] == [];
    assert attempted + queue[..0] == attempted;
  }

  /** A finished layer leaves the crawl ready for the next, one step deeper. */
  lemma LayerEnd(downloader: Downloader, getHost: HostOf, start: string, depth: int, i: int, needToAddHosts: bool,
                 keys: set<string>, queue: seq<string>, attempted0: seq<string>, visited: set<string>,
                 known: set<string>, r: Crawl, attempted: seq<string>, fetched: seq<string>,
                 i': int, queue': seq<string>, c': Crawl)
    requires LayerReady(downloader, Layer(start, depth, i, needToAddHosts, keys, queue, attempted0, visited))
    requires Progress(downloader, getHost, Layer(start, depth, i, needToAddHosts, keys, queue, attempted0, visited),
                      |queue|, known, r, attempted, fetched)
    requires i' == i - 1 && queue' == r.newLayer && c' == r.(newLayer := [])
    ensures Crawling(downloader, getHost, start, depth, i', needToAddHosts, keys, known, queue', c', attempted, fetched)
  {
    forall u | u in r.newLayer
      ensures Reachable(downloader, start, u, depth - (i - 1))
    {
    }
  }

  /** Before the first layer only the start URL waits. */
  lemma CrawlStart(downloader: Downloader, getHost: HostOf, start: string, depth: int, needToAddHosts: bool,
                   keys: set<string>)
    ensures Crawling(downloader, getHost, start, depth, depth, needToAddHosts, keys, keys, [start],
                     Crawl({}, map[], {}, []), [], [])
  {
  }

  /**
    What a finished crawl reports, `oldKeys` being the hosts known before it
    and `hosts` its allow-list.
  */
  lemma CrawlDone(downloader: Downloader, getHost: HostOf, start: string, depth: int, i: int, needToAddHosts: bool,
                  keys: set<string>, known: set<string>, queue: seq<string>, c: Crawl,
                  attempted: seq<string>, fetched: seq<string>, oldKeys: set<string>, hosts: Option<seq<string>>,
                  result: set<string>, exceptions: map<string, CrawlError>)
    requires i < 1
    requires Crawling(downloader, getHost, start, depth, i, needToAddHosts, keys, known, queue, c, attempted, fetched)
    requires keys == oldKeys + Listed(hosts) && (needToAddHosts <==> hosts.None?)
    requires result == c.result && exceptions == c.exceptions
    ensures known == oldKeys + Listed(hosts) + (if hosts.None? then HostsOf(getHost, result + exceptions.Keys) else {})
    ensures forall u :: u in result ==> u !in exceptions
    ensures forall u :: u in result ==> downloader(u).Success?
    ensures forall u :: u in exceptions ==> (exceptions[u] == MalformedUrl <==> getHost(u).None?)
    ensures forall u :: u in exceptions && exceptions[u].DownloadFailed? ==> downloader(u) == Failure(exceptions[u].message)
    ensures Distinct(fetched)
    ensures forall u :: u in fetched <==> u in result || (u in exceptions && exceptions[u].DownloadFailed?)
    ensures forall u :: u in fetched ==> getHost(u).Some? && getHost(u).value in known
    ensures hosts.Some? ==> forall u :: u in fetched ==> getHost(u).value in oldKeys + Listed(hosts)
    ensures forall u :: u in result || u in exceptions ==> depth >= 1 && Reachable(downloader, start, u, depth - 1)
    ensures depth == 1 ==> result <= {start} && exceptions.Keys <= {start}
  {
    if depth == 1 {
      forall u | u in result || u in exceptions ensures u == start {
        assert Reachable(downloader, start, u, 0);
      }
    }
  }

  // ---------------------------------------------------------------------
  // The crawler
  // ---------------------------------------------------------------------

  class WebCrawler {
    const downloader: Downloader
    const getHost: HostOf
    const perHost: int
    /** `hostMap`: the worker of every host met so far; it outlives a single `download` call. */
    var hostMap: map<string, HostWorker<string>>
    ghost var Repr: set<object>

    /** Every worker belongs to the crawler, throttles at `perHost` and is idle between tasks. */
    ghost predicate Valid()
      reads this, Repr
    {
      && perHost >= 1
      && forall h :: h in hostMap ==>
           && hostMap[h] in Repr
           && hostMap[h].Valid()
           && hostMap[h].perHost == perHost
           && hostMap[h].working == 0
           && hostMap[h].queue == []
    }

    constructor (downloader: Downloader, getHost: HostOf, perHost: int)
      requires perHost >= 1
      ensures Valid() && fresh(Repr)
      ensures this.downloader == downloader && this.getHost == getHost && this.perHost == perHost
      ensures hostMap == map[]
    {
      this.downloader := downloader;
      this.getHost := getHost;
      this.perHost := perHost;
      hostMap := map[];
      Repr := {};
    }

    /** `hostMap.computeIfAbsent(host, ...)`: the worker of `host`, created idle when missing. */
    method WorkerOf(host: string) returns (worker: HostWorker<string>)
      requires Valid()
      modifies this
      ensures Valid() && fresh(Repr - old(Repr))
      ensures hostMap.Keys == old(hostMap.Keys) + {host}
      ensures forall h :: h in old(hostMap) ==> hostMap[h] == old(hostMap[h])
      ensures host in hostMap && worker == hostMap[host]
    {
      if host in hostMap {
        worker := hostMap[host];
      } else {
        worker := new HostWorker(perHost);
        hostMap := hostMap[host := worker];
        Repr := Repr + {worker};
      }
    }

    /** The extractor loop: mark and queue the links not yet visited. */
    method ExtractLinks(c: Crawl, links: seq<string>) returns (r: Crawl)
      ensures r == AddLinks(c, links)
    {
      r := c;
      for k := 0 to |links|
        invariant r == AddLinks(c, links[..k])
      {
        assert links[..k + 1][..k] == links[..k];
        if links[k] !in r.visited {
          r := r.(visited := r.visited + {links[k]}, newLayer := r.newLayer + [links[k]]);
        }
      }
      assert links[..|links|] == links;
    }

    /** The download task: fetch the page, record it, and extract its links unless the depth is exhausted. */
    method RunDownloadTask(url: string, depth: int, c: Crawl) returns (r: Crawl)
      ensures r == TaskEffect(downloader, c, url, depth)
    {
      match downloader(url)
      case Failure(message) =>
        r := c.(exceptions := c.exceptions[url := DownloadFailed(message)]);
      case Success(doc) =>
        r := c.(result := c.result + {url}, visited := c.visited + {url});
        if depth != 1 {
          r := ExtractLinks(r, LinksOf(doc));
        }
    }

    /**
      `downloadLinks`: a malformed URL is recorded as such; a URL whose host
      is not registered is skipped when only listed hosts may be crawled;
      any other URL is submitted to its host's worker and downloaded.
    */
    method DownloadLinks(url: string, c: Crawl, depth: int, needToAddHosts: bool) returns (r: Crawl, ghost fetched: bool)
      requires Valid()
      modifies this, Repr
      ensures Valid() && fresh(Repr - old(Repr))
      ensures forall h :: h in old(hostMap) ==> h in hostMap && hostMap[h] == old(hostMap[h])
      ensures r == LinkStep(downloader, getHost, old(hostMap.Keys), c, url, depth, needToAddHosts)
      ensures fetched == Admitted(getHost, old(hostMap.Keys), url, needToAddHosts)
      ensures hostMap.Keys == KnownAfter(getHost, old(hostMap.Keys), url, needToAddHosts)
    {
      var host := getHost(url);
      if host.None? {
        r := c.(exceptions := c.exceptions[url := MalformedUrl]);
        fetched := false;
        return;
      }
      if !needToAddHosts && host.value !in hostMap {
        r := c;
        fetched := false;
        return;
      }
      var worker := WorkerOf(host.value);
      var started := worker.AddTask(url);
      assert started == Some(url);
      r := RunDownloadTask(url, depth, c);
      var next := worker.RunTask();
      assert next == None;
      fetched := true;
    }

    /** `hosts.forEach(host -> hostMap.computeIfAbsent(...))`: register every listed host. */
    method RegisterHosts(hosts: seq<string>)
      requires Valid()
      modifies this
      ensures Valid() && fresh(Repr - old(Repr))
      ensures hostMap.Keys == old(hostMap.Keys) + (set h | h in hosts)
      ensures forall h :: h in old(hostMap) ==> hostMap[h] == old(hostMap[h])
    {
      for k := 0 to |hosts|
        invariant Valid() && fresh(Repr - old(Repr))
        invariant hostMap.Keys == old(hostMap.Keys) + (set h | h in hosts[..k])
        invariant forall h :: h in old(hostMap) ==> h in hostMap && hostMap[h] == old(hostMap[h])
      {
        var worker := WorkerOf(hosts[k]);
        assert hosts[..k + 1] == hosts[..k] + [hosts[k]];
      }
      assert hosts[..|hosts|] == hosts;
    }

    /**
      One layer of the breadth-first download: `downloadLinks` for every URL
      of the layer, `i` being the depth that remains. The URLs it finds new
      make the next layer, one link further from the start.
    */
    method DownloadLayer(url: string, depth: int, i: int, queue: seq<string>, needToAddHosts: bool, c: Crawl,
                         ghost keys: set<string>, ghost attempted: seq<string>, ghost fetched: seq<string>)
      returns (r: Crawl, ghost attempted': seq<string>, ghost fetched': seq<string>)
      requires Valid()
      requires LayerReady(downloader, Layer(url, depth, i, needToAddHosts, keys, queue, attempted, c.visited))
      requires Progress(downloader, getHost, Layer(url, depth, i, needToAddHosts, keys, queue, attempted, c.visited), 0,
                        hostMap.Keys, c, attempted, fetched)
      modifies this, Repr
      ensures Valid() && fresh(Repr - old(Repr))
      ensures forall h :: h in old(hostMap) ==> h in hostMap && hostMap[h] == old(hostMap[h])
      ensures Progress(downloader, getHost, Layer(url, depth, i, needToAddHosts, keys, queue, attempted, c.visited), |queue|,
                       hostMap.Keys, r, attempted', fetched')
    {
      ghost var L := Layer(url, depth, i, needToAddHosts, keys, queue, attempted, c.visited);
      r := c;
      attempted' := attempted;
      fetched' := fetched;
      for k := 0 to |queue|
        invariant Valid() && fresh(Repr - old(Repr))
        invariant forall h :: h in old(hostMap) ==> h in hostMap && hostMap[h] == old(hostMap[h])
        invariant Progress(downloader, getHost, L, k, hostMap.Keys, r, attempted', fetched')
      {
        ProgressStep(downloader, getHost, L, k, hostMap.Keys, r, attempted', fetched');
        var next: Crawl;
        ghost var got: bool;
        next, got := DownloadLinks(queue[k], r, i, needToAddHosts);
        r := next;
        attempted' := attempted' + [queue[k]];
        if got {
          fetched' := fetched' + [queue[k]];
        }
      }
    }

    /**
      `download(url, depth, hosts)`: the breadth-first crawl. Every URL it
      reports lies within `depth - 1` links of the start; successes and
      failures never share a URL; a URL without a host is reported as
      malformed; with a host list only registered hosts are crawled; no
      page is downloaded twice.
    */
    method Download(url: string, depth: int, hosts: Option<seq<string>>)
      returns (result: set<string>, exceptions: map<string, CrawlError>, ghost fetched: seq<string>)
      requires Valid()
      modifies this, Repr
      ensures Valid() && fresh(Repr - old(Repr))
      ensures forall h :: h in old(hostMap) ==> h in hostMap && hostMap[h] == old(hostMap[h])
      ensures hostMap.Keys == old(hostMap.Keys) + Listed(hosts) +
                (if hosts.None? then HostsOf(getHost, result + exceptions.Keys) else {})
      ensures forall u :: u in result ==> u !in exceptions
      ensures forall u :: u in result ==> downloader(u).Success?
      ensures forall u :: u in exceptions ==> (exceptions[u] == MalformedUrl <==> getHost(u).None?)
      ensures forall u :: u in exceptions && exceptions[u].DownloadFailed? ==> downloader(u) == Failure(exceptions[u].message)
      ensures Distinct(fetched)
      ensures forall u :: u in fetched <==> u in result || (u in exceptions && exceptions[u].DownloadFailed?)
      ensures forall u :: u in fetched ==> getHost(u).Some? && getHost(u).value in hostMap
      ensures hosts.Some? ==> forall u :: u in fetched ==> getHost(u).value in old(hostMap.Keys) + Listed(hosts)
      ensures forall u :: u in result || u in exceptions ==> depth >= 1 && Reachable(downloader, url, u, depth - 1)
      ensures depth == 1 ==> result <= {url} && exceptions.Keys <= {url}
    {
      var needToAddHosts := true;
      if hosts.Some? {
        needToAddHosts := false;
        RegisterHosts(hosts.value);
      }
      ghost var keys := hostMap.Keys;
      var c := Crawl({}, map[], {}, []);
      var queue := [url];
      ghost var attempted: seq<string> := [];
      fetched := [];
      var i := depth;
      CrawlStart(downloader, getHost, url, depth, needToAddHosts, keys);
      while i >= 1
        invariant Valid() && fresh(Repr - old(Repr))
        invariant forall h :: h in old(hostMap) ==> h in hostMap && hostMap[h] == old(hostMap[h])
        invariant keys == old(hostMap.Keys) + Listed(hosts)
        invariant needToAddHosts <==> hosts.None?
        invariant Crawling(downloader, getHost, url, depth, i, needToAddHosts, keys, hostMap.Keys, queue, c, attempted, fetched)
      {
        LayerStart(downloader, getHost, url, depth, i, needToAddHosts, keys, hostMap.Keys, queue, c, attempted, fetched);
        ghost var visited, attempted0, layer, i0 := c.visited, attempted, queue, i;
        c, attempted, fetched := DownloadLayer(url, depth, i, queue, needToAddHosts, c, keys, attempted, fetched);
        ghost var r := c;
        queue := c.newLayer;
        c := c.(newLayer := []);
        i := i - 1;
        LayerEnd(downloader, getHost, url, depth, i0, needToAddHosts, keys, layer, attempted0, visited,
                 hostMap.Keys, r, attempted, fetched, i, queue, c);
      }
      result, exceptions := c.result, c.exceptions;
      CrawlDone(downloader, getHost, url, depth, i, needToAddHosts, keys, hostMap.Keys, queue, c, attempted, fetched,
                old(hostMap.Keys), hosts, result, exceptions);
    }
  }
}

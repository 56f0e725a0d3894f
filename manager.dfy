/** `RssFeedManager` (src/include/rss.hpp, src/rss.cpp): the list of subscribed
    channels, the subscription record `subscribed.txt` and the `cached/`
    directory of saved feeds. The record file is modelled by its contents, the
    cache directory by the documents that can be loaded from it, keyed by path. */
module Feeds {
  import opened Failures
  import opened Numbers
  import opened Xml
  import opened Cleaners
  import opened Rss
  import opened Record
  import opened Markup

  /** A fetcher: the document downloaded and parsed from a url, if any. */
  type Fetch = string -> Option<Node>

  /** An image decoder: the size of the image at a url, if it can be loaded. */
  type Load = string -> Option<Decoded>

  /** The cache directory after `save_file` ran, if it ran. */
  function Saved(cache: map<string, Node>, w: Option<CacheWrite>): map<string, Node>
  {
    if w.Some? then cache[w.value.path := w.value.doc] else cache
  }

  // ------------------------------------------------------------ removing

  /** The channels whose title is not `title`, in their order: what `remove_if`
      followed by `erase` keeps. */
  function Without(cs: seq<Channel>, title: string): (r: seq<Channel>)
  {
    if cs == [] then []
    else if cs[|cs| - 1].title == title then Without(cs[..|cs| - 1], title)
    else Without(cs[..|cs| - 1], title) + [cs[|cs| - 1]]
  }

  /** A channel survives removal iff it was there and has another title. */
  lemma {:induction false} WithoutMembers(cs: seq<Channel>, title: string)
    ensures forall c :: c in Without(cs, title) <==> c in cs && c.title != title
  {
    if cs != [] {
      WithoutMembers(cs[..|cs| - 1], title);
      assert cs == cs[..|cs| - 1] + [cs[|cs| - 1]];
    }
  }

  /** Removal takes away exactly the channels with that title: the others keep
      their number of occurrences. */
  lemma {:induction false} WithoutCounts(cs: seq<Channel>, title: string)
    ensures forall c: Channel :: c.title != title ==> multiset(Without(cs, title))[c] == multiset(cs)[c]
    ensures forall c: Channel :: c.title == title ==> multiset(Without(cs, title))[c] == 0
  {
    if cs != [] {
      WithoutCounts(cs[..|cs| - 1], title);
      assert cs == cs[..|cs| - 1] + [cs[|cs| - 1]];
    }
  }

  /** Removing a title no channel has changes nothing. */
  lemma {:induction false} WithoutAbsent(cs: seq<Channel>, title: string)
    requires forall k :: 0 <= k < |cs| ==> cs[k].title != title
    ensures Without(cs, title) == cs
  {
    if cs != [] {
      WithoutAbsent(cs[..|cs| - 1], title);
      assert cs == cs[..|cs| - 1] + [cs[|cs| - 1]];
    }
  }

  /** Removal works channel by channel: it distributes over concatenation. */
  lemma {:induction false} WithoutAppend(a: seq<Channel>, b: seq<Channel>, title: string)
    ensures Without(a + b, title) == Without(a, title) + Without(b, title)
    decreases |b|
  {
    if b == [] {
      assert a + b == a;
    } else {
      assert (a + b)[..|a + b| - 1] == a + b[..|b| - 1];
      WithoutAppend(a, b[..|b| - 1], title);
    }
  }

  /** Removing the same title twice is removing it once. */
  lemma WithoutIdempotent(cs: seq<Channel>, title: string)
    ensures Without(Without(cs, title), title) == Without(cs, title)
  {
    var w := Without(cs, title);
    WithoutMembers(cs, title);
    assert forall k :: 0 <= k < |w| ==> w[k] in w;
    WithoutAbsent(w, title);
  }

  // ------------------------------------------------------------ record

  /** The record entry `writeRecord` emits for a channel. */
  function EntryOf(c: Channel): Entry
  {
    Entry(c.title, c.link, c.ttl, c.lastChecked)
  }

  /** The record entries of a channel list, in order. */
  function Entries(cs: seq<Channel>): (r: seq<Entry>)
    ensures |r| == |cs|
    ensures forall k :: 0 <= k < |cs| ==> r[k] == EntryOf(cs[k])
  {
    if cs == [] then [] else Entries(cs[..|cs| - 1]) + [EntryOf(cs[|cs| - 1])]
  }

  lemma EntriesSnoc(cs: seq<Channel>, i: nat)
    requires i < |cs|
    ensures Entries(cs[..i + 1]) == Entries(cs[..i]) + [EntryOf(cs[i])]
  {
    assert cs[..i + 1][..i] == cs[..i];
  }

  /** Channels whose title and link fit on one line of the record. */
  predicate OneLine(cs: seq<Channel>)
  {
    forall k :: 0 <= k < |cs| ==> '\n' !in cs[k].title && '\n' !in cs[k].link
  }

  lemma OneLineSnoc(cs: seq<Channel>, c: Channel)
    requires OneLine(cs) && '\n' !in c.title && '\n' !in c.link
    ensures OneLine(cs + [c])
  {
    assert forall k :: 0 <= k < |cs| ==> (cs + [c])[k] == cs[k];
  }

  /** A written record reads back as the channels' entries, up to the first
      channel with an empty title, unless it is under 10 bytes. */
  lemma WrittenRecordReadsBack(cs: seq<Channel>)
    requires OneLine(cs)
    ensures var text := Serialize(Entries(cs));
      ParseRecord(text) == if |text| < 10 then [] else TakeTitled(Entries(cs))
  {
    var es := Entries(cs);
    assert forall k :: 0 <= k < |es| ==> Writable(es[k]);
    RecordRoundTrip(es);
  }

  /** With titles that are all non-empty and a record of 10 bytes or more, the
      record reads back as exactly the channels' entries. */
  lemma FullRecordReadsBack(cs: seq<Channel>)
    requires OneLine(cs) && forall k :: 0 <= k < |cs| ==> cs[k].title != []
    requires |Serialize(Entries(cs))| >= 10
    ensures ParseRecord(Serialize(Entries(cs))) == Entries(cs)
  {
    WrittenRecordReadsBack(cs);
  }

  /** After a title is removed and the record written, reading the record back
      never yields an entry with that title. */
  lemma RemovedStaysRemoved(cs: seq<Channel>, title: string)
    requires OneLine(cs)
    ensures forall e :: e in ParseRecord(Serialize(Entries(Without(cs, title)))) ==> e.title != title
  {
    var w := Without(cs, title);
    WithoutMembers(cs, title);
    assert OneLine(w) by {
      forall k | 0 <= k < |w| ensures '\n' !in w[k].title && '\n' !in w[k].link {
        assert w[k] in w;
        var j :| 0 <= j < |cs| && cs[j] == w[k];
      }
    }
    WrittenRecordReadsBack(w);
    var es := Entries(w);
    forall e | e in TakeTitled(es) ensures e.title != title {
      var k :| 0 <= k < |TakeTitled(es)| && TakeTitled(es)[k] == e;
      assert TakeTitled(es)[k] == es[k] == EntryOf(w[k]);
      assert w[k] in w;
    }
  }

  // ------------------------------------------------------------ loading

  /** `(thisMinute - lastUpdate) > ttl` in `size_t`: the feed is out of date. */
  predicate NeedsRefresh(now: SizeT, lastChecked: SizeT, ttl: SizeT)
  {
    Minus(now, lastChecked) > ttl
  }

  /** With the clock at or after the last check, a feed is refreshed exactly
      when more than `ttl` minutes have passed: at `ttl` minutes it is not yet. */
  lemma RefreshAfterTtl(now: SizeT, lastChecked: SizeT, ttl: SizeT)
    requires lastChecked <= now
    ensures NeedsRefresh(now, lastChecked, ttl) <==> now - lastChecked > ttl
    ensures now - lastChecked == ttl ==> !NeedsRefresh(now, lastChecked, ttl)
  {
  }

  /** A `ttl` of 0 does not force a download within the minute of the last check. */
  lemma ZeroTtlSameMinute(now: SizeT)
    ensures !NeedsRefresh(now, now, 0)
    ensures now < SIZE_T_MAX ==> NeedsRefresh(now + 1, now, 0)
  {
  }

  /** A recorded minute later than the clock wraps around in `size_t`: the feed
      is refreshed unless `ttl` is within that many minutes of the maximum. */
  lemma ClockBehindWraps(now: SizeT, lastChecked: SizeT, ttl: SizeT)
    requires now < lastChecked
    ensures NeedsRefresh(now, lastChecked, ttl) <==> ttl < SIZE_T_MAX + 1 - (lastChecked - now)
  {
  }

  /** What loading one channel leaves: the channel, if one was built; the
      cache directory after it; and whether a `cleanHTML` call hung, in which
      case the source never gets past this point. */
  datatype Loaded = Loaded(channel: Option<Channel>, cache: map<string, Node>, stuck: bool)

  /** `RssChannel::fromUrl(url)` inside a `try`: the channel, or nothing when
      it throws, and the cache after the download's `save_file`. */
  function Download(url: string, now: SizeT, cache: map<string, Node>, fetch: Fetch, load: Load): Loaded
  {
    var (c, w) := FromUrl(url, now, fetch, load);
    Loaded(if c.Ok? then Some(c.value) else None, Saved(cache, w), c == Err(Diverged))
  }

  /** One entry of `loadChannelsFromRecord`: download when out of date, else
      load `cached/<title>.rss`, keeping the recorded last-checked minute, and
      fall back to downloading when the cache file is missing or raises; when
      the download raises too the entry is skipped. */
  function LoadEntry(e: Entry, now: SizeT, cache: map<string, Node>, fetch: Fetch, load: Load): Loaded
  {
    if NeedsRefresh(now, e.lastChecked, e.ttl) then Download(e.url, now, cache, fetch, load)
    else
      var path := CachePath(e.title);
      if path !in cache then Download(e.url, now, cache, fetch, load)
      else
        var (c, w) := ParseChannel(cache[path], e.url, load);
        if c.Ok? then Loaded(Some(c.value.(lastChecked := e.lastChecked)), Saved(cache, w), false)
        else if c == Err(Diverged) then Loaded(None, Saved(cache, w), true)
        else Download(e.url, now, cache, fetch, load)
  }

  /** A download gives a channel exactly when the fetched document has every
      required element and every `cleanHTML` on it returns, and hangs exactly
      when it has them and some `cleanHTML` does not return. A downloaded
      channel carries the clock reading, the url without newlines and a
      one-line title. */
  lemma DownloadContract(url: string, now: SizeT, cache: map<string, Node>, fetch: Fetch, load: Load)
    ensures var l := Download(url, now, cache, fetch, load);
      var fetched := fetch(url).Some? && fetch(url).value.Element? && HasChannelFields(fetch(url).value);
      && (l.channel.Some? <==> fetched && CleansUp(fetch(url).value))
      && (l.stuck <==> fetched && !CleansUp(fetch(url).value))
      && (l.channel.Some? ==> l.channel.value.lastChecked == now && l.channel.value.link == RemoveNewlines(url)
                              && '\n' !in l.channel.value.title && '\n' !in l.channel.value.link)
  {
    if fetch(url).Some? {
      ParseChannelOutcome(fetch(url).value, url, load);
      if ParseChannel(fetch(url).value, url, load).0.Ok? {
        ParseChannelBuilds(fetch(url).value, url, load);
      }
    }
  }

  /** Every loaded channel links to the entry's url, on one line, with a one-line title. */
  lemma LoadEntryContract(e: Entry, now: SizeT, cache: map<string, Node>, fetch: Fetch, load: Load)
    ensures var l := LoadEntry(e, now, cache, fetch, load);
      l.channel.Some? ==> l.channel.value.link == RemoveNewlines(e.url)
                          && '\n' !in l.channel.value.title && '\n' !in l.channel.value.link
  {
    var path := CachePath(e.title);
    if NeedsRefresh(now, e.lastChecked, e.ttl) || path !in cache {
      assert LoadEntry(e, now, cache, fetch, load) == Download(e.url, now, cache, fetch, load);
      DownloadContract(e.url, now, cache, fetch, load);
    } else {
      var c := ParseChannel(cache[path], e.url, load).0;
      if c.Ok? {
        ParseChannelBuilds(cache[path], e.url, load);
      } else if c != Err(Diverged) {
        assert LoadEntry(e, now, cache, fetch, load) == Download(e.url, now, cache, fetch, load);
        DownloadContract(e.url, now, cache, fetch, load);
      }
    }
  }

  /** An out-of-date entry is always downloaded; the cache is not consulted. */
  lemma StaleEntryDownloads(e: Entry, now: SizeT, cache: map<string, Node>, fetch: Fetch, load: Load)
    requires NeedsRefresh(now, e.lastChecked, e.ttl)
    ensures LoadEntry(e, now, cache, fetch, load) == Download(e.url, now, cache, fetch, load)
    ensures var l := LoadEntry(e, now, cache, fetch, load);
      l.channel.Some? ==> l.channel.value.lastChecked == now
  {
    DownloadContract(e.url, now, cache, fetch, load);
  }

  /** A fresh entry whose cache file builds a channel is loaded from it without
      any download: whatever the network does, the channel is the cached one
      with the recorded last-checked minute. */
  lemma CacheHit(e: Entry, now: SizeT, cache: map<string, Node>, fetch: Fetch, load: Load)
    requires !NeedsRefresh(now, e.lastChecked, e.ttl)
    requires CachePath(e.title) in cache
    requires var doc := cache[CachePath(e.title)]; doc.Element? && HasChannelFields(doc) && CleansUp(doc)
    ensures var l := LoadEntry(e, now, cache, fetch, load);
      var c := ParseChannel(cache[CachePath(e.title)], e.url, load).0;
      && c.Ok? && !l.stuck
      && l.channel == Some(c.value.(lastChecked := e.lastChecked))
      && l.channel.value.link == RemoveNewlines(e.url)
  {
    ParseChannelOutcome(cache[CachePath(e.title)], e.url, load);
    ParseChannelBuilds(cache[CachePath(e.title)], e.url, load);
  }

  /** A fresh entry whose cache file is missing or lacks a required element
      falls back to a download. */
  lemma CacheMissDownloads(e: Entry, now: SizeT, cache: map<string, Node>, fetch: Fetch, load: Load)
    requires !NeedsRefresh(now, e.lastChecked, e.ttl)
    requires var path := CachePath(e.title);
      path !in cache || !(cache[path].Element? && HasChannelFields(cache[path]))
    ensures LoadEntry(e, now, cache, fetch, load) == Download(e.url, now, cache, fetch, load)
  {
    var path := CachePath(e.title);
    if path in cache {
      ParseChannelOutcome(cache[path], e.url, load);
    }
  }

  /** A fresh entry whose cache file hangs `cleanHTML` hangs the loop: no
      download is tried. */
  lemma CachedHang(e: Entry, now: SizeT, cache: map<string, Node>, fetch: Fetch, load: Load)
    requires !NeedsRefresh(now, e.lastChecked, e.ttl)
    requires CachePath(e.title) in cache
    requires var doc := cache[CachePath(e.title)]; doc.Element? && HasChannelFields(doc) && !CleansUp(doc)
    ensures var l := LoadEntry(e, now, cache, fetch, load); l.stuck && l.channel.None?
  {
    ParseChannelOutcome(cache[CachePath(e.title)], e.url, load);
  }

  /** The channel list a possible channel adds. */
  function Listed(o: Option<Channel>): seq<Channel>
  {
    if o.Some? then [o.value] else []
  }

  /** The loop so far: the channels loaded, the cache, and whether it hung. */
  datatype Progress = Progress(channels: seq<Channel>, cache: map<string, Node>, stuck: bool)

  /** The whole loop: entries in record order, the cache threaded through the
      `save_file` calls, and nothing after an entry that hangs. */
  function LoadAll(es: seq<Entry>, now: SizeT, cache: map<string, Node>, fetch: Fetch, load: Load): Progress
  {
    if es == [] then Progress([], cache, false)
    else
      var p := LoadAll(es[..|es| - 1], now, cache, fetch, load);
      if p.stuck then p
      else
        var l := LoadEntry(es[|es| - 1], now, p.cache, fetch, load);
        Progress(p.channels + Listed(l.channel), l.cache, l.stuck)
  }

  /** One more entry after a loop that has not hung. */
  lemma LoadAllSnoc(es: seq<Entry>, e: Entry, now: SizeT, cache: map<string, Node>, fetch: Fetch, load: Load)
    requires !LoadAll(es, now, cache, fetch, load).stuck
    ensures var p := LoadAll(es, now, cache, fetch, load);
      var l := LoadEntry(e, now, p.cache, fetch, load);
      LoadAll(es + [e], now, cache, fetch, load) == Progress(p.channels + Listed(l.channel), l.cache, l.stuck)
  {
    assert (es + [e])[..|es + [e]| - 1] == es;
  }

  lemma AppendAssoc<T>(a: seq<T>, b: seq<T>, c: seq<T>)
    ensures (a + b) + c == a + (b + c)
  {
  }

  /** Once the loop hangs, later entries change nothing. */
  lemma {:induction false} StuckStays(es: seq<Entry>, more: seq<Entry>, now: SizeT, cache: map<string, Node>,
                                      fetch: Fetch, load: Load)
    requires LoadAll(es, now, cache, fetch, load).stuck
    ensures LoadAll(es + more, now, cache, fetch, load) == LoadAll(es, now, cache, fetch, load)
    decreases |more|
  {
    if more != [] {
      var init := more[..|more| - 1];
      assert (es + more)[..|es + more| - 1] == es + init;
      StuckStays(es, init, now, cache, fetch, load);
    } else {
      assert es + more == es;
    }
  }

  /** `a` is a subsequence of `b`. */
  predicate SubSeq<T(==)>(a: seq<T>, b: seq<T>)
    decreases |b|
  {
    if a == [] then true
    else if b == [] then false
    else if a[|a| - 1] == b[|b| - 1] then SubSeq(a[..|a| - 1], b[..|b| - 1])
    else SubSeq(a, b[..|b| - 1])
  }

  function Links(cs: seq<Channel>): (r: seq<string>)
    ensures |r| == |cs|
  {
    if cs == [] then [] else Links(cs[..|cs| - 1]) + [cs[|cs| - 1].link]
  }

  function Urls(es: seq<Entry>): (r: seq<string>)
    ensures |r| == |es|
  {
    if es == [] then [] else Urls(es[..|es| - 1]) + [RemoveNewlines(es[|es| - 1].url)]
  }

  lemma {:induction false} SubSeqExtend<T>(a: seq<T>, b: seq<T>, x: T)
    requires SubSeq(a, b)
    ensures SubSeq(a, b + [x]) && SubSeq(a + [x], b + [x])
  {
    assert (a + [x])[..|a + [x]| - 1] == a;
    assert (b + [x])[..|b + [x]| - 1] == b;
    SubSeqWeaken(a, b, x);
  }

  lemma {:induction false} SubSeqDropLast<T>(a: seq<T>, b: seq<T>)
    requires a != [] && SubSeq(a, b)
    ensures SubSeq(a[..|a| - 1], b)
    decreases |b|, 0
  {
    var a' := a[..|a| - 1];
    if a' != [] && b != [] {
      if a[|a| - 1] == b[|b| - 1] {
        SubSeqWeaken(a', b[..|b| - 1], b[|b| - 1]);
        assert b == b[..|b| - 1] + [b[|b| - 1]];
      } else {
        SubSeqDropLast(a, b[..|b| - 1]);
        SubSeqWeaken(a', b[..|b| - 1], b[|b| - 1]);
        assert b == b[..|b| - 1] + [b[|b| - 1]];
      }
    }
  }

  lemma {:induction false} SubSeqWeaken<T>(a: seq<T>, b: seq<T>, x: T)
    requires SubSeq(a, b)
    ensures SubSeq(a, b + [x])
    decreases |b|, 1
  {
    assert (b + [x])[..|b + [x]| - 1] == b;
    if a != [] && a[|a| - 1] == x {
      SubSeqDropLast(a, b);
    }
  }

  /** The loaded channels link to the recorded urls in record order, each entry
      giving at most one channel: the links form a subsequence of the urls. */
  lemma {:induction false} LoadedInRecordOrder(es: seq<Entry>, now: SizeT, cache: map<string, Node>,
                                               fetch: Fetch, load: Load)
    ensures SubSeq(Links(LoadAll(es, now, cache, fetch, load).channels), Urls(es))
    ensures |LoadAll(es, now, cache, fetch, load).channels| <= |es|
  {
    if es != [] {
      var init := es[..|es| - 1];
      var e := es[|es| - 1];
      LoadedInRecordOrder(init, now, cache, fetch, load);
      var p := LoadAll(init, now, cache, fetch, load);
      var cs := p.channels;
      assert Urls(es) == Urls(init) + [RemoveNewlines(e.url)];
      SubSeqWeaken(Links(cs), Urls(init), RemoveNewlines(e.url));
      if !p.stuck {
        var l := LoadEntry(e, now, p.cache, fetch, load);
        if l.channel.Some? {
          LoadEntryContract(e, now, p.cache, fetch, load);
          assert Links(cs + [l.channel.value]) == Links(cs) + [RemoveNewlines(e.url)];
          SubSeqExtend(Links(cs), Urls(init), RemoveNewlines(e.url));
        } else {
          assert cs + [] == cs;
        }
      }
    }
  }

  /** Every loaded channel fits on one line of the record. */
  lemma {:induction false} LoadedOneLine(es: seq<Entry>, now: SizeT, cache: map<string, Node>,
                                         fetch: Fetch, load: Load)
    ensures OneLine(LoadAll(es, now, cache, fetch, load).channels)
  {
    if es != [] {
      var init := es[..|es| - 1];
      LoadedOneLine(init, now, cache, fetch, load);
      var p := LoadAll(init, now, cache, fetch, load);
      if !p.stuck {
        var l := LoadEntry(es[|es| - 1], now, p.cache, fetch, load);
        LoadEntryContract(es[|es| - 1], now, p.cache, fetch, load);
        if l.channel.Some? {
          OneLineSnoc(p.channels, l.channel.value);
        } else {
          assert p.channels + [] == p.channels;
        }
      }
    }
  }

  /** A cache key that `fromXML` writes and the record lookup finds: the lookup
      uses the stored title, which is tag-stripped, while the write uses the
      title before tag stripping; they agree when the title has no tag. */
  lemma CacheKeyAgrees(doc: Node, link: string, load: Load)
    requires '<' !in RawTitle(doc)
    requires ParseChannel(doc, link, load).0.Ok? && ParseChannel(doc, link, load).0.value.ttl != 0
    ensures var (c, w) := ParseChannel(doc, link, load);
      w.Some? && w.value.path == CachePath(c.value.title)
  {
    ParseChannelOutcome(doc, link, load);
    ParseChannelBuilds(doc, link, load);
    ParseChannelSaves(doc, link, load);
  }

  /** Distinct titles are saved under distinct cache paths. */
  lemma CachePathInjective(a: string, b: string)
    requires CachePath(a) == CachePath(b)
    ensures a == b
  {
    var p := CachePath(a);
    assert a == p[7..|p| - 4];
    assert b == CachePath(b)[7..|p| - 4];
  }

  /** A channel whose title holds a tag is cached under the title before tag
      stripping but recorded under the stripped one, so the lookup by the
      recorded title does not find the file `fromXML` wrote. */
  lemma TaggedTitleMissesOwnCache(doc: Node, link: string, load: Load)
    requires '<' in RawTitle(doc)
    requires ParseChannel(doc, link, load).0.Ok? && ParseChannel(doc, link, load).0.value.ttl != 0
    ensures var (c, w) := ParseChannel(doc, link, load);
      w.Some? && w.value.path != CachePath(c.value.title)
  {
    ParseChannelOutcome(doc, link, load);
    ParseChannelBuilds(doc, link, load);
    ParseChannelSaves(doc, link, load);
    var (c, w) := ParseChannel(doc, link, load);
    if w.value.path == CachePath(c.value.title) {
      CachePathInjective(RawTitle(doc), c.value.title);
      assert false;
    }
  }

  /** For instance (an instance of TaggedTitleMissesOwnCache on one title): a
      bold prefix is cached under its tagged name but looked up under "xy". */
  lemma TaggedTitleMissesCache(title: string)
    requires title == "<b>x</b>y"
    ensures Strip(title) == Some("xy")
    ensures CachePath(title) != CachePath("xy")
  {
    assert CachePath(title) != CachePath("xy") by {
      assert CachePath(title)[7] == '<';
      assert CachePath("xy")[7] == 'x';
    }
    BoldExample(title);
  }

  // ------------------------------------------------------------ the manager

  /** `RssFeedManager`. */
  class FeedManager {
    /** `channels`: the subscribed channels, in subscription order. */
    var channels: seq<Channel>
    /** Contents of `subscribed.txt`. */
    var record: string
    /** The loadable files of the `cached/` directory, by path. */
    var cache: map<string, Node>

    /** Every subscribed channel fits on its record lines. */
    predicate Valid()
      reads this
    {
      OneLine(channels)
    }

    /** The constructor opens the record without truncating it; nothing is loaded yet. */
    constructor (existing: string, cached: map<string, Node>)
      ensures Valid()
      ensures channels == [] && record == existing && cache == cached
    {
      channels := [];
      record := existing;
      cache := cached;
    }

    /** `addChannel(link)`: on success the channel is appended; on failure the
        list is unchanged and the error is reported (`Diverged` where the
        source never returns). The download may write the cache either way. */
    method AddChannel(link: string, now: SizeT, fetch: Fetch, load: Load) returns (err: Option<Error>)
      requires Valid()
      modifies this
      ensures Valid()
      ensures var (c, w) := FromUrl(link, now, fetch, load);
        && channels == (if c.Ok? then old(channels) + [c.value] else old(channels))
        && err == (if c.Ok? then None else Some(c.error))
        && cache == Saved(old(cache), w)
      ensures record == old(record)
    {
      var c, w := ChannelFromUrl(link, now, fetch, load);
      if c.Ok? {
        assert OneLine(channels + [c.value]) by {
          DownloadContract(link, now, cache, fetch, load);
          OneLineSnoc(channels, c.value);
        }
        channels := channels + [c.value];
        err := None;
      } else {
        err := Some(c.error);
      }
      cache := Saved(cache, w);
    }

    /** `removeChannel(title)`: every channel with exactly that title goes, the
        rest keep their order. */
    method RemoveChannel(title: string)
      requires Valid()
      modifies this
      ensures Valid()
      ensures channels == Without(old(channels), title)
      ensures record == old(record) && cache == old(cache)
    {
      var kept: seq<Channel> := [];
      var i := 0;
      while i < |channels|
        invariant 0 <= i <= |channels|
        invariant kept == Without(channels[..i], title)
      {
        assert channels[..i + 1][..i] == channels[..i];
        if channels[i].title != title {
          kept := kept + [channels[i]];
        }
        i := i + 1;
      }
      assert channels[..i] == channels;
      WithoutMembers(channels, title);
      forall k | 0 <= k < |kept| ensures '\n' !in kept[k].title && '\n' !in kept[k].link {
        assert kept[k] in kept;
        var j :| 0 <= j < |channels| && channels[j] == kept[k];
      }
      channels := kept;
    }

    /** The `try { channels.push_back(RssChannel::fromUrl(url)); }` blocks of
        `loadChannelsFromRecord`: a download that raises only skips the entry.
        The imperative form of the download step that `Download` states. */
    method PushDownloaded(url: string, now: SizeT, fetch: Fetch, load: Load) returns (stuck: bool)
      requires Valid()
      modifies this
      ensures Valid()
      ensures var l := Download(url, now, old(cache), fetch, load);
        channels == old(channels) + Listed(l.channel) && cache == l.cache && stuck == l.stuck
      ensures record == old(record)
    {
      var c, w := ChannelFromUrl(url, now, fetch, load);
      if c.Ok? {
        assert OneLine(channels + [c.value]) by {
          DownloadContract(url, now, cache, fetch, load);
          OneLineSnoc(channels, c.value);
        }
        channels := channels + [c.value];
      }
      cache := Saved(cache, w);
      stuck := c == Err(Diverged);
    }

    /** One entry of the record: the `if`/`else` of `loadChannelsFromRecord`. */
    method LoadOne(e: Entry, now: SizeT, fetch: Fetch, load: Load) returns (stuck: bool)
      requires Valid()
      modifies this
      ensures Valid()
      ensures var l := LoadEntry(e, now, old(cache), fetch, load);
        channels == old(channels) + Listed(l.channel) && cache == l.cache && stuck == l.stuck
      ensures record == old(record)
    {
      if NeedsRefresh(now, e.lastChecked, e.ttl) || CachePath(e.title) !in cache {
        stuck := PushDownloaded(e.url, now, fetch, load);
      } else {
        stuck := LoadCached(e, now, fetch, load);
      }
    }

    /** The `else` branch: an entry still fresh whose cache file loads is built
        from that file, and downloaded when building it raises. */
    method LoadCached(e: Entry, now: SizeT, fetch: Fetch, load: Load) returns (stuck: bool)
      requires Valid()
      requires !NeedsRefresh(now, e.lastChecked, e.ttl) && CachePath(e.title) in cache
      modifies this
      ensures Valid()
      ensures var l := LoadEntry(e, now, old(cache), fetch, load);
        channels == old(channels) + Listed(l.channel) && cache == l.cache && stuck == l.stuck
      ensures record == old(record)
    {
      var path := CachePath(e.title);
      var c, w := ChannelFromXml(cache[path], e.url, load);
      if c.Ok? {
        var d := c.value.(lastChecked := e.lastChecked);
        assert OneLine(channels + [d]) by {
          ParseChannelBuilds(cache[path], e.url, load);
          OneLineSnoc(channels, d);
        }
        channels := channels + [d];
        cache := Saved(cache, w);
        stuck := false;
      } else if c == Err(Diverged) {
        cache := Saved(cache, w);
        stuck := true;
      } else {
        stuck := PushDownloaded(e.url, now, fetch, load);
      }
    }

    /** `loadChannelsFromRecord()`: nothing from a record under 10 bytes;
        otherwise every entry read, in order, is loaded and appended, until
        the record ends, a title line is empty, or a `cleanHTML` call hangs,
        which `stuck` reports (the source never returns then). */
    method LoadChannelsFromRecord(now: SizeT, fetch: Fetch, load: Load) returns (stuck: bool)
      requires Valid()
      modifies this
      ensures Valid()
      ensures var p := LoadAll(ParseRecord(record), now, old(cache), fetch, load);
        channels == old(channels) + p.channels && cache == p.cache && stuck == p.stuck
      ensures record == old(record)
    {
      stuck := false;
      if |record| < 10 {
        return;
      }
      var st := Stream(record, false);
      var line := "";
      ghost var all := ParseRecord(record);
      ghost var done: seq<Entry> := [];
      ghost var todo := all;
      while !st.eof
        invariant record == old(record)
        invariant Valid()
        invariant todo == ParseFrom(st, line) && done + todo == all
        invariant var p := LoadAll(done, now, old(cache), fetch, load);
          channels == old(channels) + p.channels && cache == p.cache && !p.stuck
        decreases |st.rest|
      {
        ghost var before, todo0 := done, todo;
        var e;
        e, st, line := ReadEntry(st, line);
        if e.None? {
          assert done == all by {
            assert todo0 == [];
            assert done + [] == done;
          }
          break;
        }
        done, todo := done + [e.value], ParseFrom(st, line);
        assert done + todo == all by {
          AppendAssoc(before, [e.value], todo);
        }
        LoadAllSnoc(before, e.value, now, old(cache), fetch, load);
        ghost var p := LoadAll(before, now, old(cache), fetch, load);
        stuck := LoadOne(e.value, now, fetch, load);
        AppendAssoc(old(channels), p.channels, Listed(LoadEntry(e.value, now, p.cache, fetch, load).channel));
        if stuck {
          StuckStays(done, todo, now, old(cache), fetch, load);
          return;
        }
      }
      if st.eof {
        ParseFromStops(st, line);
        assert done + [] == done;
      }
    }

    /** `writeRecord()`: the record is rewritten from scratch, four lines per
        channel in list order. */
    method WriteRecord()
      requires Valid()
      modifies this
      ensures Valid()
      ensures record == Serialize(Entries(channels))
      ensures channels == old(channels) && cache == old(cache)
    {
      var cs := channels;
      var text := "";
      var i := 0;
      while i < |cs|
        invariant 0 <= i <= |cs|
        invariant text == Serialize(Entries(cs[..i]))
        invariant unchanged(this)
      {
        var c := cs[i];
        var lines := EntryText(EntryOf(c));
        EntriesSnoc(cs, i);
        SerializeAppend(Entries(cs[..i]), EntryOf(c));
        text := text + lines;
        i := i + 1;
      }
      assert cs[..i] == cs;
      record := text;
    }
  }
}

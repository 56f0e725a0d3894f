/** The RSS value types of src/include/rss.hpp and their construction from a
    parsed document (src/rss.cpp): `RssImage::fromXML`, `fromXMLEnclosure`,
    `loadImgFromUrl`, `RssItem::fromXML`, `RssChannel::fromXML` and `fromUrl`.
    The network, the XML parser and the image decoder are oracles passed in. */
module Rss {
  import opened Failures
  import opened Numbers
  import opened Xml
  import opened Cleaners

  /** `RssImage`: a channel image or an item enclosure. */
  datatype Image = Image(
    filled: bool,
    title: string,
    url: string,
    description: string,
    width: int,
    height: int,
    ch: int)

  /** `RssImage{}` with its default member initialisers. */
  const DefaultImage: Image := Image(false, "", "", "", 88, 31, 3)

  /** What the image decoder reports for a successfully fetched image. */
  datatype Decoded = Decoded(width: int, height: int, channels: int)

  /** `RssItem`. */
  datatype Item = Item(
    title: string,
    description: string,
    link: string,
    pubDate: string,
    author: string,
    enclosure: Image)

  /** `RssChannel`. `ttl` and `lastChecked` are `size_t` minutes. */
  datatype Channel = Channel(
    title: string,
    description: string,
    link: string,
    ttl: SizeT,
    lastChecked: SizeT,
    image: Image,
    items: seq<Item>)

  /** `xmlDoc.save_file(path)`: the document written to the cache directory. */
  datatype CacheWrite = CacheWrite(path: string, doc: Node)

  /** The cache file name used for a channel title. */
  function CachePath(title: string): string
  {
    "cached/" + title + ".rss"
  }

  /** The `rss` -> `channel` node of a document, or `Null`. */
  function ChannelNode(doc: Node): Node
  {
    Child(Child(doc, "rss"), "channel")
  }

  /** `cleanHTML(s)` as a value: the text it leaves, or `Diverged` when its loop
      never ends. A divergence is not an exception: nothing in the source catches
      it, so wherever it appears the model stops where the source would hang. */
  function Clean(s: StdString): (r: Result<string>)
  {
    match Strip(s)
    case None => Err(Diverged)
    case Some(t) => Ok(t)
  }

  /** What `Clean` returns is tag-free and made of characters of its input. */
  lemma CleanKeeps(s: StdString)
    ensures Clean(s).Ok? <==> Strip(s).Some?
    ensures Clean(s).Err? ==> Clean(s).error == Diverged
    ensures Clean(s).Ok? ==> '<' !in Clean(s).value && forall c :: c in Clean(s).value ==> c in s
  {
    if Strip(s).Some? {
      StripKeepsChars(s);
    }
  }

  // ------------------------------------------------------------ images

  /** `loadImgFromUrl(url)`: fetch and decode; on success the image is filled with
      the decoded size, on failure it is left as it was and an error is raised. */
  function LoadImage(img: Image, url: string, load: string -> Option<Decoded>): (r: Result<Image>)
    ensures r.Err? <==> load(url).None?
    ensures r.Err? ==> r.error == DecodeFailed
    ensures r.Ok? ==> (
      && r.value.filled
      && r.value.width == load(url).value.width && r.value.height == load(url).value.height
      && r.value.ch == load(url).value.channels
      && r.value.title == img.title && r.value.url == img.url && r.value.description == img.description)
  {
    match load(url)
    case None => Err(DecodeFailed)
    case Some(d) => Ok(img.(filled := true, width := d.width, height := d.height, ch := d.channels))
  }

  /** An optional unsigned child (`width`, `height`): its value, or `dflt` when absent. */
  function OptionalUInt(n: Node, name: string, dflt: int): int
  {
    if Child(n, name).Null? then dflt else ParseUIntAsInt(Text(Child(n, name)))
  }

  /** `RssImage::fromXML(node)`: `title` and `url` are required, `width` and
      `height` optional; the image is loaded at once. Every failure is absorbed:
      the fields filled in before it stay set and `filled` stays false. */
  function ImageFromXml(n: Node, load: string -> Option<Decoded>): Image
  {
    if n.Null? then DefaultImage
    else
      match RequireNode(n, "title")
      case Err(_) => DefaultImage
      case Ok(t) =>
        var titled := DefaultImage.(title := Text(t));
        match RequireNode(n, "url")
        case Err(_) => titled
        case Ok(u) =>
          var sized := titled.(url := Text(u),
                               width := OptionalUInt(n, "width", titled.width),
                               height := OptionalUInt(n, "height", titled.height));
          match LoadImage(sized, sized.url, load)
          case Err(_) => sized
          case Ok(loaded) => loaded.(description := Text(Child(n, "description")))
  }

  /** The image is filled exactly when `title` and `url` exist and the image
      loads; without a title it is the default image; a failure after the title
      keeps the title (and, after the url, the url and the size read so far). */
  lemma ImageFromXmlContract(n: Node, load: string -> Option<Decoded>)
    ensures var r := ImageFromXml(n, load);
      && (Child(n, "title").Null? ==> r == DefaultImage)
      && (r.filled <==> Child(n, "title") != Null && Child(n, "url") != Null
                        && load(Text(Child(n, "url"))).Some?)
      && (!r.filled ==> r.description == "" && r.ch == 3)
      && (Child(n, "title") != Null ==> r.title == Text(Child(n, "title")))
      && (Child(n, "title") != Null && Child(n, "url").Null? ==> r == DefaultImage.(title := r.title))
      && (Child(n, "title") != Null && Child(n, "url") != Null ==> r.url == Text(Child(n, "url")))
      && (Child(n, "title") != Null && Child(n, "url") != Null && !r.filled ==>
            r.width == OptionalUInt(n, "width", 88) && r.height == OptionalUInt(n, "height", 31))
      && (r.filled ==> r.description == Text(Child(n, "description")))
  {
  }

  /** `contentType.compare(0, strlen("image/"), "image/") == 0`. */
  predicate IsImageType(t: string) { |t| >= 6 && t[..6] == "image/" }

  /** `RssImage::fromXMLEnclosure(node)`. */
  function EnclosureFromXml(n: Node): Image
  {
    match RequireAttribute(n, "type")
    case Err(_) => DefaultImage
    case Ok(contentType) =>
      if !IsImageType(contentType) then DefaultImage
      else
        var titled := DefaultImage.(title := "Attachment");
        match RequireAttribute(n, "url")
        case Err(_) => titled
        case Ok(u) => titled.(url := u)
  }

  /** An enclosure is never filled. Its title becomes "Attachment" once the
      `type` attribute names an image type; its url is taken only when, in
      addition, a `url` attribute exists. */
  lemma EnclosureFromXmlContract(n: Node)
    ensures var r := EnclosureFromXml(n);
      && !r.filled && r.width == 88 && r.height == 31 && r.ch == 3 && r.description == ""
      && r.title == (if AttributeOf(n, "type").Some? && IsImageType(AttributeOf(n, "type").value)
                     then "Attachment" else "")
      && r.url == (if AttributeOf(n, "type").Some? && IsImageType(AttributeOf(n, "type").value)
                      && AttributeOf(n, "url").Some?
                   then AttributeOf(n, "url").value else "")
  {
  }

  // ------------------------------------------------------------ items

  /** The three elements `RssItem::fromXML` requires. */
  predicate HasItemFields(n: Node)
  {
    && Child(n, "title") != Null
    && Child(n, "link") != Null
    && Child(n, "description") != Null
  }

  /** `RssItem::fromXML(node)`: the required elements in turn, then the
      optional ones, then `cleanHTML` on the description and on the title. */
  function ItemFromXml(n: Node): Result<Item>
  {
    if n.Null? then Err(EmptyNode)
    else
      var title :- RequireNode(n, "title");
      var link :- RequireNode(n, "link");
      var description :- RequireNode(n, "description");
      var cleanDescription :- Clean(Text(description));
      var cleanTitle :- Clean(Text(title));
      Ok(Item(
        title := cleanTitle,
        description := cleanDescription,
        link := Text(link),
        pubDate := Text(Child(n, "pubDate")),
        author := Text(Child(n, "author")),
        enclosure := EnclosureFromXml(Child(n, "enclosure"))))
  }

  /** The error `RssItem::fromXML` raises names the first required element
      missing; with all three present it hangs exactly when `cleanHTML` does on
      the title or the description, and otherwise builds the item with title
      and description tag-stripped and link, author and date copied verbatim
      (absent optionals give ""). */
  lemma ItemFromXmlContract(n: Node)
    ensures var r := ItemFromXml(n);
      && (n.Null? ==> r == Err(EmptyNode))
      && (n.Element? && Child(n, "title").Null? ==> r == Err(MissingElement("title")))
      && (Child(n, "title") != Null && Child(n, "link").Null? ==> r == Err(MissingElement("link")))
      && (Child(n, "title") != Null && Child(n, "link") != Null && Child(n, "description").Null? ==>
            r == Err(MissingElement("description")))
      && (r == Err(Diverged) <==>
            HasItemFields(n) && !(Strip(Text(Child(n, "title"))).Some? && Strip(Text(Child(n, "description"))).Some?))
      && (r.Ok? <==>
            HasItemFields(n) && Strip(Text(Child(n, "title"))).Some? && Strip(Text(Child(n, "description"))).Some?)
      && (r.Ok? ==>
            && r.value.title == Strip(Text(Child(n, "title"))).value
            && r.value.description == Strip(Text(Child(n, "description"))).value
            && '<' !in r.value.title && '<' !in r.value.description
            && r.value.link == Text(Child(n, "link"))
            && r.value.author == Text(Child(n, "author"))
            && r.value.pubDate == Text(Child(n, "pubDate"))
            && r.value.enclosure == EnclosureFromXml(Child(n, "enclosure"))
            && !r.value.enclosure.filled)
  {
    CleanKeeps(Text(Child(n, "title")));
    CleanKeeps(Text(Child(n, "description")));
    EnclosureFromXmlContract(Child(n, "enclosure"));
  }

  /** What `RssItem::fromXML` gives for each node, in order. */
  function ItemResults(ns: seq<Node>): (rs: seq<Result<Item>>)
    ensures |rs| == |ns|
  {
    if ns == [] then [] else [ItemFromXml(ns[0])] + ItemResults(ns[1..])
  }

  lemma {:induction false} ItemResultsAppend(a: seq<Node>, b: seq<Node>)
    ensures ItemResults(a + b) == ItemResults(a) + ItemResults(b)
  {
    if a == [] {
      assert a + b == b;
    } else {
      assert (a + b)[0] == a[0] && (a + b)[1..] == a[1..] + b;
      ItemResultsAppend(a[1..], b);
    }
  }

  lemma {:induction false} ItemResultsAt(ns: seq<Node>, k: nat)
    requires k < |ns|
    ensures ItemResults(ns)[k] == ItemFromXml(ns[k])
  {
    if k > 0 {
      ItemResultsAt(ns[1..], k - 1);
    }
  }

  /** The items a run of construction results yields, in order: a result that
      raised is skipped, and one on which `cleanHTML` hangs hangs the loop. */
  function Kept(rs: seq<Result<Item>>): (r: Result<seq<Item>>)
    ensures r.Ok? ==> |r.value| <= |rs|
    ensures r.Err? ==> r.error == Diverged
  {
    if rs == [] then Ok([])
    else
      match rs[0]
      case Ok(item) =>
        (match Kept(rs[1..])
         case Ok(rest) => Ok([item] + rest)
         case Err(e) => Err(e))
      case Err(e) => if e == Diverged then Err(e) else Kept(rs[1..])
  }

  /** The items built from the `item` nodes `ns`. */
  function KeptItems(ns: seq<Node>): Result<seq<Item>>
  {
    Kept(ItemResults(ns))
  }

  /** The items of two runs, one after the other; a hang in the first run hides
      the second. */
  function Joined(a: Result<seq<Item>>, b: Result<seq<Item>>): Result<seq<Item>>
  {
    if a.Err? then a else if b.Err? then b else Ok(a.value + b.value)
  }

  lemma {:induction false} KeptAppend(a: seq<Result<Item>>, b: seq<Result<Item>>)
    ensures Kept(a + b) == Joined(Kept(a), Kept(b))
  {
    if a == [] {
      assert a + b == b;
      if Kept(b).Ok? {
        assert [] + Kept(b).value == Kept(b).value;
      }
    } else {
      assert (a + b)[0] == a[0] && (a + b)[1..] == a[1..] + b;
      KeptAppend(a[1..], b);
      if a[0].Ok? && Kept(a[1..]).Ok? && Kept(b).Ok? {
        assert [a[0].value] + (Kept(a[1..]).value + Kept(b).value)
            == [a[0].value] + Kept(a[1..]).value + Kept(b).value;
      }
    }
  }

  lemma KeptItemsAppend(a: seq<Node>, b: seq<Node>)
    ensures KeptItems(a + b) == Joined(KeptItems(a), KeptItems(b))
  {
    ItemResultsAppend(a, b);
    KeptAppend(ItemResults(a), ItemResults(b));
  }

  lemma KeptOne(r: Result<Item>)
    ensures Kept([r]) == match r
      case Ok(item) => Ok([item])
      case Err(e) => if e == Diverged then Err(e) else Ok([])
  {
    var rs := [r];
    assert rs[0] == r && rs[1..] == [];
    assert Kept(rs[1..]) == Ok([]);
    if r.Ok? {
      assert [r.value] + [] == [r.value];
    }
  }

  lemma KeptSingle(n: Node)
    ensures KeptItems([n]) == Kept([ItemFromXml(n)])
  {
    var ns := [n];
    assert ns[0] == n && ns[1..] == [];
    assert ItemResults(ns[1..]) == [];
    assert ItemResults(ns) == [ItemFromXml(n)] + ItemResults(ns[1..]);
    assert KeptItems(ns) == Kept([ItemFromXml(n)] + []);
    assert [ItemFromXml(n)] + [] == [ItemFromXml(n)];
  }

  /** A node that raises is dropped and its siblings keep their order around it. */
  lemma DroppedItem(a: seq<Node>, bad: Node, b: seq<Node>)
    requires ItemFromXml(bad).Err? && ItemFromXml(bad).error != Diverged
    ensures KeptItems(a + [bad] + b) == KeptItems(a + b)
  {
    KeptItemsAppend(a + [bad], b);
    KeptItemsAppend(a, [bad]);
    KeptSingle(bad);
    KeptOne(ItemFromXml(bad));
    if KeptItems(a).Ok? {
      assert KeptItems(a).value + [] == KeptItems(a).value;
    }
    KeptItemsAppend(a, b);
  }

  lemma {:induction false} KeptHangs(rs: seq<Result<Item>>, k: nat)
    requires k < |rs| && rs[k] == Err(Diverged)
    ensures Kept(rs) == Err(Diverged)
  {
    if k > 0 {
      assert rs[1..][k - 1] == rs[k];
      KeptHangs(rs[1..], k - 1);
    }
  }

  /** A node on which `cleanHTML` hangs hangs the whole loop, wherever it is. */
  lemma HangingItem(ns: seq<Node>, k: nat)
    requires k < |ns| && ItemFromXml(ns[k]) == Err(Diverged)
    ensures KeptItems(ns) == Err(Diverged)
  {
    ItemResultsAt(ns, k);
    KeptHangs(ItemResults(ns), k);
  }

  lemma {:induction false} KeptAll(rs: seq<Result<Item>>)
    requires forall k :: 0 <= k < |rs| ==> rs[k].Ok?
    ensures Kept(rs).Ok? && |Kept(rs).value| == |rs|
    ensures forall k :: 0 <= k < |rs| ==> Kept(rs).value[k] == rs[k].value
  {
    if rs != [] {
      assert forall k :: 0 <= k < |rs[1..]| ==> rs[1..][k] == rs[k + 1];
      KeptAll(rs[1..]);
      forall k | 0 <= k < |rs| ensures Kept(rs).value[k] == rs[k].value {
        if k > 0 {
          assert rs[k] == rs[1..][k - 1];
        }
      }
    }
  }

  /** When every item can be built, all are kept, each built from its own node. */
  lemma AllItemsKept(ns: seq<Node>)
    requires forall k :: 0 <= k < |ns| ==> ItemFromXml(ns[k]).Ok?
    ensures KeptItems(ns).Ok? && |KeptItems(ns).value| == |ns|
    ensures forall k :: 0 <= k < |ns| ==> KeptItems(ns).value[k] == ItemFromXml(ns[k]).value
  {
    forall k | 0 <= k < |ns| ensures ItemResults(ns)[k] == ItemFromXml(ns[k]) {
      ItemResultsAt(ns, k);
    }
    KeptAll(ItemResults(ns));
  }

  /** The `for` loop of `RssChannel::fromXML` over the `item` children: each
      item that can be built is pushed back, each that raises is logged and
      skipped; the model stops at an item on which `cleanHTML` hangs. */
  method BuildItems(nodes: seq<Node>) returns (items: Result<seq<Item>>)
    ensures items == KeptItems(nodes)
  {
    var built: seq<Item> := [];
    var i := 0;
    while i < |nodes|
      invariant 0 <= i <= |nodes|
      invariant KeptItems(nodes[..i]) == Ok(built)
    {
      var item := ItemFromXml(nodes[i]);
      assert nodes[..i + 1] == nodes[..i] + [nodes[i]];
      KeptItemsAppend(nodes[..i], [nodes[i]]);
      KeptSingle(nodes[i]);
      KeptOne(item);
      if item.Ok? {
        built := built + [item.value];
      } else if item.error == Diverged {
        HangingItem(nodes, i);
        return Err(Diverged);
      } else {
        assert built + [] == built;
      }
      i := i + 1;
    }
    assert nodes[..i] == nodes;
    items := Ok(built);
  }

  // ------------------------------------------------------------ channels

  /** The elements `RssChannel::fromXML` requires: `rss`, `channel` and on it
      `title` and `description`. */
  predicate HasChannelFields(doc: Node)
  {
    && Child(doc, "rss") != Null
    && ChannelNode(doc) != Null
    && Child(ChannelNode(doc), "title") != Null
    && Child(ChannelNode(doc), "description") != Null
  }

  /** The chain of `REQUIRENODE` calls. */
  function RequireChannelFields(doc: Node): Result<(Node, Node, Node)>
  {
    var rss :- RequireNode(doc, "rss");
    var channel :- RequireNode(rss, "channel");
    var title :- RequireNode(channel, "title");
    var description :- RequireNode(channel, "description");
    Ok((channel, title, description))
  }

  /** The chain succeeds exactly when all four elements exist, and otherwise
      reports the first one missing. */
  lemma RequireChannelFieldsContract(doc: Node)
    ensures var r := RequireChannelFields(doc);
      && (r.Ok? <==> HasChannelFields(doc))
      && (r.Ok? ==> r.value == (ChannelNode(doc), Child(ChannelNode(doc), "title"),
                                Child(ChannelNode(doc), "description")))
      && (Child(doc, "rss").Null? ==> r == Err(MissingElement("rss")))
      && (Child(doc, "rss") != Null && ChannelNode(doc).Null? ==> r == Err(MissingElement("channel")))
      && (ChannelNode(doc) != Null && Child(ChannelNode(doc), "title").Null? ==>
            r == Err(MissingElement("title")))
      && (ChannelNode(doc) != Null && Child(ChannelNode(doc), "title") != Null
            && Child(ChannelNode(doc), "description").Null? ==>
            r == Err(MissingElement("description")))
  {
  }

  /** `ttl`: the optional `<ttl>` element as `as_ullong`, or 0 when absent. */
  function TtlOf(ch: Node): SizeT
  {
    if Child(ch, "ttl").Null? then 0 else ParseUnsigned(Text(Child(ch, "ttl")), SIZE_T_MAX)
  }

  /** The channel title as `fromXML` holds it before tag stripping. */
  function RawTitle(doc: Node): StdString
  {
    RemoveNewlines(Text(Child(ChannelNode(doc), "title")))
  }

  /** Every `cleanHTML` call `RssChannel::fromXML` makes on this document returns:
      those of the items, then the description's, then the title's. */
  predicate CleansUp(doc: Node)
  {
    var ch := ChannelNode(doc);
    && KeptItems(ChildElements(ch, "item")).Ok?
    && Strip(Text(Child(ch, "description"))).Some?
    && Strip(RawTitle(doc)).Some?
  }

  /** What `RssChannel::fromXML(doc, link)` returns or raises, together with the
      cache file it writes. */
  function ParseChannel(doc: Node, link: string, load: string -> Option<Decoded>)
    : (Result<Channel>, Option<CacheWrite>)
  {
    if doc.Null? then (Err(EmptyDocument), None)
    else
      match RequireChannelFields(doc)
      case Err(e) => (Err(e), None)
      case Ok((ch, t, d)) =>
        var title := RemoveNewlines(Text(t));
        var ttl := TtlOf(ch);
        var image := ImageFromXml(Child(ch, "image"), load);
        match KeptItems(ChildElements(ch, "item"))
        case Err(e) => (Err(e), None)
        case Ok(items) =>
          var saved := if ttl != 0 then Some(CacheWrite(CachePath(title), doc)) else None;
          match Clean(Text(d))
          case Err(e) => (Err(e), saved)
          case Ok(description) =>
            match Clean(title)
            case Err(e) => (Err(e), saved)
            case Ok(cleanTitle) =>
              (Ok(Channel(cleanTitle, description, RemoveNewlines(link), ttl, 0, image, items)), saved)
  }

  /** `RssChannel::fromXML` raises on a null document and on a missing required
      element, naming it; with all of them present it hangs exactly when one of
      its `cleanHTML` calls does, and otherwise builds the channel. */
  lemma ParseChannelOutcome(doc: Node, link: string, load: string -> Option<Decoded>)
    ensures var r := ParseChannel(doc, link, load).0;
      && (doc.Null? ==> r == Err(EmptyDocument))
      && (doc.Element? && !HasChannelFields(doc) ==> r == RequireChannelFields(doc).PropagateFailure())
      && (r.Ok? <==> doc.Element? && HasChannelFields(doc) && CleansUp(doc))
      && (r == Err(Diverged) <==> doc.Element? && HasChannelFields(doc) && !CleansUp(doc))
  {
    RequireChannelFieldsContract(doc);
    if doc.Element? && HasChannelFields(doc) {
      CleanKeeps(Text(Child(ChannelNode(doc), "description")));
      CleanKeeps(RawTitle(doc));
    }
  }

  /** A built channel has a title free of newlines and tags (newlines stripped
      first), a description free of tags, the given link without newlines,
      `ttl` 0 when `<ttl>` is absent, `lastChecked` 0, and exactly the items
      that could be built, in document order. */
  lemma ParseChannelBuilds(doc: Node, link: string, load: string -> Option<Decoded>)
    requires ParseChannel(doc, link, load).0.Ok?
    ensures var c := ParseChannel(doc, link, load).0.value;
      var ch := ChannelNode(doc);
      && '\n' !in c.title && '<' !in c.title && '<' !in c.description && '\n' !in c.link
      && c.title == Strip(RawTitle(doc)).value
      && c.description == Strip(Text(Child(ch, "description"))).value
      && c.link == RemoveNewlines(link)
      && c.ttl == TtlOf(ch)
      && (Child(ch, "ttl").Null? ==> c.ttl == 0)
      && c.lastChecked == 0
      && c.image == ImageFromXml(Child(ch, "image"), load)
      && c.items == KeptItems(ChildElements(ch, "item")).value
  {
    RequireChannelFieldsContract(doc);
    NoNewlinesLeft(Text(Child(ChannelNode(doc), "title")));
    NoNewlinesLeft(link);
    CleanKeeps(Text(Child(ChannelNode(doc), "description")));
    CleanKeeps(RawTitle(doc));
  }

  /** The cache file is written once the items are built and `ttl != 0`, under
      the title after newline stripping and before tag stripping, even when a
      later `cleanHTML` hangs; it is never written when construction raises. */
  lemma ParseChannelSaves(doc: Node, link: string, load: string -> Option<Decoded>)
    ensures var (r, w) := ParseChannel(doc, link, load);
      && w == (if doc.Element? && HasChannelFields(doc) && KeptItems(ChildElements(ChannelNode(doc), "item")).Ok?
                  && TtlOf(ChannelNode(doc)) != 0
               then Some(CacheWrite(CachePath(RawTitle(doc)), doc)) else None)
      && (r.Err? && r.error != Diverged ==> w.None?)
  {
    RequireChannelFieldsContract(doc);
    ParseChannelOutcome(doc, link, load);
  }

  /** `RssChannel::fromXML(doc, link)`: required fields first, then the image,
      then every item in turn (a failing item is skipped), then the cache file
      when `ttl != 0`, then tag stripping of description and title. Where a
      `cleanHTML` call would never return, the model stops with `Diverged`.
      The imperative form of `ParseChannel`, step by step as the source runs. */
  method ChannelFromXml(doc: Node, link: string, load: string -> Option<Decoded>)
    returns (r: Result<Channel>, saved: Option<CacheWrite>)
    ensures (r, saved) == ParseChannel(doc, link, load)
  {
    if doc.Null? {
      return Err(EmptyDocument), None;
    }
    var fields := RequireChannelFields(doc);
    if fields.Err? {
      return Err(fields.error), None;
    }
    var (ch, t, d) := fields.value;
    var title := CleanWhiteSpace(Text(t));
    var cleanLink := CleanWhiteSpace(link);
    var ttl := TtlOf(ch);
    var image := ImageFromXml(Child(ch, "image"), load);
    var items := BuildItems(ChildElements(ch, "item"));
    if items.Err? {
      return Err(items.error), None;
    }
    saved := if ttl != 0 then Some(CacheWrite(CachePath(title), doc)) else None;
    if Strip(Text(d)).None? {
      return Err(Diverged), saved;
    }
    var description := CleanHtml(Text(d));
    if Strip(title).None? {
      return Err(Diverged), saved;
    }
    title := CleanHtml(title);
    r := Ok(Channel(title, description, cleanLink, ttl, 0, image, items.value));
  }

  /** What `RssChannel::fromUrl(url)` returns or raises: `fetch` stands for the
      HTTP GET and the XML parse (`None` when either fails); `now` is the clock. */
  function FromUrl(url: string, now: SizeT, fetch: string -> Option<Node>, load: string -> Option<Decoded>)
    : (Result<Channel>, Option<CacheWrite>)
  {
    match fetch(url)
    case None => (Err(FetchFailed), None)
    case Some(doc) =>
      var (c, saved) := ParseChannel(doc, url, load);
      if c.Ok? then (Ok(c.value.(lastChecked := now)), saved) else (c, saved)
  }

  /** `RssChannel::fromUrl(url)`: no partial channel on any failure. The
      imperative form of `FromUrl`. */
  method ChannelFromUrl(url: string, now: SizeT, fetch: string -> Option<Node>, load: string -> Option<Decoded>)
    returns (r: Result<Channel>, saved: Option<CacheWrite>)
    ensures (r, saved) == FromUrl(url, now, fetch, load)
  {
    var doc := fetch(url);
    if doc.None? {
      return Err(FetchFailed), None;
    }
    r, saved := ChannelFromXml(doc.value, url, load);
    if r.Ok? {
      r := Ok(r.value.(lastChecked := now));
    }
  }
}

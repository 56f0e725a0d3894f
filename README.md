# GoodNews feed manager in Dafny

This project models the feed-management core of GoodNews, a desktop RSS reader:

- the RSS value types (`RssImage`, `RssItem`, `RssChannel`) and how they are
  built from a parsed XML document or downloaded from a url;
- the two string cleaners: `cleanWhiteSpace` removes newlines and `cleanHTML`
  strips tags;
- `RssFeedManager`, which:
  - keeps the subscribed channels;
  - reads and writes the subscription record `subscribed.txt`;
  - picks, entry by entry, between downloading a feed and loading it from
    `cached/<title>.rss`, based on the feed's time-to-live;
- the logger's `file_name` helper.

The modules follow the program's structure:

| file | module | models |
|---|---|---|
| failures.dfy | `Failures` | `Option`, `Result` and the kinds of exception the core raises |
| numbers.dfy | `Numbers` | `size_t` arithmetic with wrap-around, `strtoull`/`as_ullong`/`as_uint`, decimal printing |
| xml.dfy | `Xml` | the pugixml tree as a datatype; `child`, `children`, `attribute`, `REQUIRENODE`, `REQUIREATTRIB` |
| cleaners.dfy | `Cleaners` | `cleanWhiteSpace`; `cleanHTML` pass by pass, including the inputs on which it never returns |
| markup.dfy | `Markup` | a reference tag stripper, and the proof that `cleanHTML` matches it on well-formed markup |
| rss.dfy | `Rss` | `RssImage::fromXML`, `fromXMLEnclosure`, `loadImgFromUrl`, `RssItem::fromXML`, `RssChannel::fromXML`, `fromUrl` |
| record.dfy | `Record` | the four-line record format, `writeRecord`'s output and the `getline` reading loop |
| manager.dfy | `Feeds` | `RssFeedManager` as a class: `addChannel`, `removeChannel`, `loadChannelsFromRecord`, `writeRecord` |
| logger.dfy | `Logger` | `file_name` |

The outside world becomes parameters:

- The HTTP GET and XML parse of `fromUrl` are a function `fetch` from a url to an optional document.
- `loadImgFromUrl`'s download and decode are a function `load` from a url to an optional image size.
- The clock is a `size_t` minute, `now`.
- The record file is its text.
- The `cached/` directory is a map from path to document.

`cleanHTML` does not return on some inputs, for example `"<p"` and `"a><b"`.
The model gives such a call the value `Err(Diverged)`. No `catch` in the
source can see a hang, so the error is never caught. It propagates through
`RssItem::fromXML` and `RssChannel::fromXML`. The manager's loading methods
stop and report `stuck`, at the point where the source would hang.

## Model

| member | source | states |
|---|---|---|
| Numbers.Minus | src/rss.cpp:347-348 | `size_t` subtraction is the difference modulo 2^64, the C++ rule for unsigned arithmetic |
| Numbers.Plus | src/rss.cpp:60 | `size_t` addition is the sum modulo 2^64, so `npos + 1` is 0 |
| Numbers.DigitRun | src/rss.cpp:343 | the digits `strtoull` reads: a maximal all-digit prefix |
| Numbers.SkipSpaces | src/rss.cpp:343 | `strtoull` skips leading white space and no more: the result is a suffix of the input, everything cut off is white space, and the result does not start with white space |
| Numbers.ParseUnsigned | src/rss.cpp:212 | a decimal conversion saturates at its maximum and is 0 when no digit follows the white space; a string of digits reads as its value, or as the maximum when larger |
| Numbers.ParseDecimal | src/rss.cpp:212 | a number printed in decimal reads back as itself, or as the maximum when larger |
| Numbers.ParseSizeT | src/rss.cpp:342-345 | `strtoull` on a string of decimal digits that fits in `size_t` gives its value |
| Numbers.ParseUIntAsInt | src/rss.cpp:79-80 | `as_uint()` stored in an `int` width/height stays in `int` range and keeps values up to `INT_MAX` |
| Numbers.ToDecimal | src/rss.cpp:429 | what `<<` prints for a `size_t` is a non-empty string of digits |
| Numbers.ValueOfDecimal | src/rss.cpp:429 | the printed digits denote the printed number |
| Numbers.DecimalRoundTrip | src/rss.cpp:343-345 | a written ttl or minute reads back as the same number and holds no newline |
| Xml.FirstNamed | src/rss.cpp:15 | the first child with a given name: all before it have other names |
| Xml.Child | src/rss.cpp:15-20 | `child(name)` is null exactly when the node is null or has no child element of that name; otherwise it is the first child of that name: any child of that name with none of that name before it is the result |
| Xml.Text | src/rss.cpp:176-178 | the text of the null node is "" |
| Xml.ChildrenNamed | src/rss.cpp:216 | `children("item")` keeps only children named `item`, and every child so named |
| Xml.ChildrenNamedSingle | src/rss.cpp:216 | one node alone is kept when it has the name and dropped otherwise |
| Xml.ChildrenNamedAppend | src/rss.cpp:216 | the selection of a concatenation is the concatenation of the selections, so document order is kept |
| Xml.ChildElements | src/rss.cpp:216 | `children("item")` of a null node is empty; every node returned is an `item` child of the node, and every `item` child is returned |
| Xml.FirstAttribute | src/rss.cpp:35 | an attribute is found exactly when one with that name exists, and the value found is that of the first attribute with that name |
| Xml.RequireNode | src/rss.cpp:13-21 | `REQUIRENODE` succeeds exactly when the child exists, returns exactly `child(name)`, and otherwise raises naming it |
| Xml.RequireAttribute | src/rss.cpp:32-38 | `REQUIREATTRIB` succeeds exactly when the attribute exists, returns the value of the first attribute with that name, and otherwise raises naming it |
| Cleaners.RemoveNewlines | src/rss.cpp:45-48 | removing newlines never lengthens a string |
| Cleaners.CleanWhiteSpace | src/rss.cpp:45-48 | the loop over the string computes `RemoveNewlines`, so no newline is left |
| Cleaners.NoNewlinesLeft | src/rss.cpp:47 | no '\n' survives `cleanWhiteSpace` |
| Cleaners.RemoveNewlinesAppend | src/rss.cpp:47 | removing newlines distributes over concatenation |
| Cleaners.RemoveNewlinesKeeps | src/rss.cpp:47 | exactly the newlines go: every other character keeps its count, and a string without newlines is unchanged |
| Cleaners.RemoveNewlinesIdempotent | src/rss.cpp:45-48 | `cleanWhiteSpace` twice is `cleanWhiteSpace` once |
| Cleaners.OtherWhitespaceSurvives | src/rss.cpp:47 | despite its name, `cleanWhiteSpace` keeps '\r', '\t' and ' ' |
| Cleaners.Find | src/rss.cpp:57-60 | `find` is `npos` exactly when the character is absent, and otherwise the index of its first occurrence |
| Cleaners.FindUnique | src/rss.cpp:59-60 | an occurrence with none before it is what `find` returns |
| Cleaners.Erase | src/rss.cpp:64 | `erase(pos, n)` removes `n` characters, or all up to the end when fewer remain |
| Cleaners.Step | src/rss.cpp:57-66 | one pass of the loop never lengthens the string |
| Cleaners.Strip | src/rss.cpp:55-67 | when `cleanHTML` returns, no '<' is left and the string is no longer; a string without '<' is returned unchanged |
| Cleaners.EraseKeepsChars | src/rss.cpp:64 | `erase` only removes characters |
| Cleaners.StepKeepsChars | src/rss.cpp:57-66 | a pass only removes characters |
| Cleaners.StripKeepsChars | src/rss.cpp:55-67 | every character `cleanHTML` leaves was in its input |
| Cleaners.CleanHtml | src/rss.cpp:55-67 | the `while` loop, wherever it returns, computes `Strip` and leaves no '<' |
| Cleaners.StepSameLength | src/rss.cpp:62-65 | a pass that removes nothing leaves the string as it was |
| Cleaners.StepKeepsFront | src/rss.cpp:59-64 | a pass keeps the text before the first '<' |
| Cleaners.StripOnce | src/rss.cpp:57-66 | a pass that leaves no '<' ends the loop with its result |
| Cleaners.StepCutsTag | src/rss.cpp:59-64 | when the first '>' follows the first '<', the pass erases exactly the span between them, inclusive |
| Cleaners.StepCutsTail | src/rss.cpp:59-64 | a first '>' more than one character before the first '<', or no '>' with text before the '<', makes the pass erase from the '<' to the end |
| Cleaners.StepStuck | src/rss.cpp:59-64 | "><" as the first '>' and '<', or a leading '<' with no '>', makes the pass erase nothing |
| Cleaners.StuckMeansForever | src/rss.cpp:57-66 | a pass that erases nothing means the loop never ends |
| Cleaners.LeadingUnclosedDiverges | src/rss.cpp:57-66 | `cleanHTML("<p")` never returns |
| Cleaners.AdjacentCloseOpenDiverges | src/rss.cpp:57-66 | `cleanHTML("a><b")` never returns |
| Cleaners.TagRemoved | src/rss.cpp:55-67 | `cleanHTML("a<b>c")` gives "ac" |
| Cleaners.UnclosedTailRemoved | src/rss.cpp:55-67 | `cleanHTML("x<y")` gives "x" |
| Cleaners.StrayCloseCutsTail | src/rss.cpp:55-67 | `cleanHTML("y>z<a>b")` gives "y>z": a stray '>' makes it cut a tag and all text after it |
| Cleaners.StepKeepsPlainPrefix | src/rss.cpp:59-64 | a pass never touches a '<'-free prefix |
| Cleaners.StripKeepsLeadingText | src/rss.cpp:55-67 | `cleanHTML` keeps every '<'-free prefix of its input |
| Cleaners.StripIdempotent | src/rss.cpp:55-67 | applying `cleanHTML` to its own result changes nothing |
| Markup.InsideTag | src/rss.cpp:59-60 | inside a well-formed tag the first '>' closes it, with no '<' before it |
| Markup.FirstOpen | src/rss.cpp:59 | well-formed markup is plain text up to its first '<' |
| Markup.FirstClose | src/rss.cpp:60 | the first '>' of well-formed markup closes its first tag |
| Markup.FirstTagSpan | src/rss.cpp:59-60 | `find("<") < find(">")` on well-formed markup, and the span between them is the first tag |
| Markup.CutFirstTag | src/rss.cpp:59-64 | one pass on well-formed markup cuts out exactly the first tag |
| Markup.WellTaggedStep | src/rss.cpp:57-66 | a pass on well-formed markup keeps it well-formed with the same untagged text, and shortens it |
| Markup.StripRemovesExactlyTags | src/rss.cpp:55-67 | on well-formed markup, `cleanHTML` returns exactly the text outside tags, as the reference stripper computes it |
| Markup.BoldExample | src/rss.cpp:55-67 | `cleanHTML("<b>x</b>y")` gives "xy" |
| Rss.CleanKeeps | src/rss.cpp:55-67 | a `cleanHTML` call either hangs or returns a tag-free string of its input's characters |
| Rss.LoadImage | src/rss.cpp:104-133 | a failed download or decode raises and leaves the image as it was; a success fills it with the decoded width, height and channels, keeping title, url and description |
| Rss.ImageFromXmlContract | src/rss.cpp:69-102 | filled exactly when `title` and `url` exist and the image loads. No title gives the default image. A later failure keeps the fields set so far. Width and height are optional, with defaults 88 and 31 |
| Rss.EnclosureFromXmlContract | src/rss.cpp:135-160 | never filled; titled "Attachment" once `type` starts with `image/`; the url is set only when a `url` attribute exists as well; otherwise the default image |
| Rss.ItemFromXmlContract | src/rss.cpp:162-190 | a missing `title`, `link` or `description` raises for the first one missing; with all present it hangs exactly when `cleanHTML` hangs on the title or description; otherwise those two are tag-stripped and link, author, date and enclosure are copied |
| Rss.ItemResultsAppend | src/rss.cpp:216-227 | items are built node by node, independently |
| Rss.ItemResultsAt | src/rss.cpp:216-220 | the k-th result comes from the k-th `item` node |
| Rss.Kept | src/rss.cpp:216-227 | the loop keeps at most one item per node, and fails only by hanging |
| Rss.KeptAppend | src/rss.cpp:216-227 | the loop over two runs of results is the loop over each, joined; a hang in the first hides the second |
| Rss.KeptItemsAppend | src/rss.cpp:216-227 | the same, over `item` nodes |
| Rss.KeptOne | src/rss.cpp:218-225 | one result: a built item is kept, an exception is dropped, a hang stops the loop |
| Rss.KeptSingle | src/rss.cpp:216-227 | the loop over one node is that node's result, kept or dropped |
| Rss.DroppedItem | src/rss.cpp:218-225 | an item whose construction raises is dropped, and its siblings keep their order |
| Rss.KeptHangs | src/rss.cpp:216-227 | a hanging result anywhere hangs the loop |
| Rss.HangingItem | src/rss.cpp:216-227 | an `item` node on which `cleanHTML` hangs hangs the whole channel, wherever it is |
| Rss.KeptAll | src/rss.cpp:216-227 | when every result is an item, all are kept, in order |
| Rss.AllItemsKept | src/rss.cpp:216-227 | when every item can be built, the channel has one item per node, each built from its own node |
| Rss.BuildItems | src/rss.cpp:216-227 | the `for` loop with its `try`/`catch` computes `KeptItems` |
| Rss.RequireChannelFieldsContract | src/rss.cpp:202-205 | the `REQUIRENODE` chain succeeds exactly when `rss`, `channel`, `title` and `description` all exist, and otherwise names the first one missing |
| Rss.ParseChannelOutcome | src/rss.cpp:192-249 | raises `EmptyDocument` on an empty document and names a missing required element. With all present, it builds a channel exactly when every `cleanHTML` call returns, and hangs exactly when one does not |
| Rss.ParseChannelBuilds | src/rss.cpp:204-240 | the title has no newline and no tag; the description has no tag; the link is the given one without newlines; ttl defaults to 0; `lastChecked` is 0; the image comes from `<image>`; the items are exactly the buildable ones, in document order |
| Rss.ParseChannelSaves | src/rss.cpp:229-236 | the document is saved to `cached/<title>.rss` exactly when the items are built and ttl is not 0. The title used is the one before tag stripping. The save happens even if a later `cleanHTML` hangs, and never when the construction raises |
| Rss.ChannelFromXml | src/rss.cpp:192-249 | `RssChannel::fromXML` step by step computes `ParseChannel`, the channel and the cache write alike |
| Rss.ChannelFromUrl | src/rss.cpp:251-282 | `fromUrl` raises when the fetch or parse fails, propagates `fromXML`'s outcome, and stamps a built channel with the clock |
| Record.SerializeAppend | src/rss.cpp:427-430 | the record for one more channel is the old record followed by that channel's four lines |
| Record.NextNewline | src/rss.cpp:337 | the position `getline` stops at is a '\n' or the end |
| Record.NextNewlineEndsLine | src/rss.cpp:337 | a line without '\n' is ended by the '\n' after it |
| Record.GetLine | src/rss.cpp:337-345 | `getline` never grows the unread part. It makes progress when it reads something. At end of file it leaves its string argument and the stream as they were |
| Record.ParseFromStops | src/rss.cpp:328-338 | the loop reads nothing more at end of file or at an empty title line |
| Record.ParseFromTurn | src/rss.cpp:337-345 | one turn reads title, url, ttl and last-checked lines and gives one entry |
| Record.ReadEntry | src/rss.cpp:332-345 | the body of the reading loop gives the next entry the loop reads and leaves the rest, or stops at an empty title |
| Record.TakeTitled | src/rss.cpp:338 | the entries up to the first empty title: a prefix, all of them when none is empty, and only titled ones |
| Record.ReadLine | src/rss.cpp:337 | `getline` on a line followed by '\n' returns that line and consumes the newline |
| Record.FourLines | src/rss.cpp:337-345 | four newline-terminated lines read back as one entry |
| Record.EntryStep | src/rss.cpp:337-345 | the reading loop reads a written entry back as that entry |
| Record.ParseSerialized | src/rss.cpp:328-345 | a written record reads back as its entries up to the first empty title |
| Record.RecordRoundTrip | src/rss.cpp:319-345 | what `writeRecord` writes, `loadChannelsFromRecord` reads back: the same entries in order up to the first empty title, or nothing when under 10 bytes |
| Record.ShortRecordLost | src/rss.cpp:321-323 | a one-channel record of 8 bytes is read as empty |
| Feeds.WithoutMembers | src/rss.cpp:308-317 | after removal, a channel is present exactly when it was before and has a different title |
| Feeds.WithoutCounts | src/rss.cpp:311-316 | removal keeps every other channel's count and drops every channel with that title |
| Feeds.WithoutAbsent | src/rss.cpp:308-317 | removing a title no channel has is a no-op |
| Feeds.WithoutAppend | src/rss.cpp:311-316 | removal works channel by channel, keeping the order |
| Feeds.WithoutIdempotent | src/rss.cpp:308-317 | removing a title twice is removing it once |
| Feeds.Entries | src/rss.cpp:427-430 | one record entry per channel, in list order |
| Feeds.EntriesSnoc | src/rss.cpp:427-430 | one more channel adds its entry at the end |
| Feeds.OneLineSnoc | src/rss.cpp:299 | appending a one-line channel keeps every channel on one line |
| Feeds.WrittenRecordReadsBack | src/rss.cpp:422-433 | a written record of one-line channels reads back as their entries up to the first empty title, or as nothing when under 10 bytes |
| Feeds.FullRecordReadsBack | src/rss.cpp:422-433 | with non-empty titles and at least 10 bytes, the record reads back as exactly the channels' entries |
| Feeds.RemovedStaysRemoved | src/rss.cpp:308-317 | after removal and a rewrite of the record, no entry read back has the removed title |
| Feeds.RefreshAfterTtl | src/rss.cpp:348 | with the clock at or after the last check, a refresh happens exactly when more than ttl minutes have passed, and not at exactly ttl |
| Feeds.ZeroTtlSameMinute | src/rss.cpp:348 | a ttl of 0 does not force a download within the same minute, but does one minute later |
| Feeds.ClockBehindWraps | src/rss.cpp:347-348 | a last check later than the clock wraps the difference, forcing a refresh unless ttl is near the maximum |
| Feeds.DownloadContract | src/rss.cpp:350-359 | a download yields a channel exactly when the fetched document has the required elements and every `cleanHTML` returns, and hangs exactly when one does not; the channel carries the clock and the url |
| Feeds.LoadEntryContract | src/rss.cpp:347-414 | every channel loaded from an entry links to the entry's url, and its title and link are on one line |
| Feeds.StaleEntryDownloads | src/rss.cpp:348-360 | an out-of-date entry is downloaded without looking at the cache, and is stamped with the clock |
| Feeds.CacheHit | src/rss.cpp:386-394 | a fresh entry whose cache file builds a channel is loaded from it with the recorded last-checked minute, whatever the network would do |
| Feeds.CacheMissDownloads | src/rss.cpp:364-385 | a fresh entry whose cache file is missing or lacks a required element falls back to a download |
| Feeds.CachedHang | src/rss.cpp:388-390 | a cache file on which `cleanHTML` hangs hangs the loop, with no download |
| Feeds.LoadAllSnoc | src/rss.cpp:328-416 | the loop over one more entry appends that entry's channel, if any, and threads the cache on |
| Feeds.StuckStays | src/rss.cpp:328-416 | once the loop hangs, later entries change nothing |
| Feeds.LoadedInRecordOrder | src/rss.cpp:328-416 | the loaded channels' links are a subsequence of the recorded urls: record order, at most one channel per entry |
| Feeds.LoadedOneLine | src/rss.cpp:328-416 | every loaded channel's title and link fit on one record line |
| Feeds.CacheKeyAgrees | src/rss.cpp:229-236 | for a title without tags, the cache file `fromXML` writes is the one the record lookup reads |
| Feeds.CachePathInjective | src/rss.cpp:235 | distinct titles give distinct cache paths |
| Feeds.TaggedTitleMissesOwnCache | src/rss.cpp:229-236 | for any channel built with a tag in its title and a nonzero ttl, the cache file `fromXML` writes is not the one the record lookup by the stored title reads |
| Feeds.TaggedTitleMissesCache | src/rss.cpp:364-366 | for instance, `<b>x</b>y` is written under its tagged name but looked up as `xy` |
| Feeds.FeedManager.constructor | src/rss.cpp:284-287 | the manager starts with no channels, the existing record and the cache directory as found |
| Feeds.FeedManager.AddChannel | src/rss.cpp:294-306 | on success the downloaded channel is appended; on failure the list is unchanged and the error is returned; the cache write happens either way |
| Feeds.FeedManager.RemoveChannel | src/rss.cpp:308-317 | the loop keeps exactly the channels with another title, in order (`Without`) |
| Feeds.FeedManager.PushDownloaded | src/rss.cpp:350-359 | a download that raises only skips the entry; a built channel is appended |
| Feeds.FeedManager.LoadOne | src/rss.cpp:347-414 | one entry of the loop, as `LoadEntry` states |
| Feeds.FeedManager.LoadCached | src/rss.cpp:361-414 | the cache branch: build from the cache file keeping the recorded minute, and fall back to a download when building raises |
| Feeds.FeedManager.LoadChannelsFromRecord | src/rss.cpp:319-420 | appends, in record order, the channels `LoadAll` gives for the entries read from the record, threading the cache; nothing for a record under 10 bytes |
| Feeds.FeedManager.WriteRecord | src/rss.cpp:422-433 | the record becomes exactly the four lines of every channel, in list order |
| Logger.AfterLastSeparator | src/include/logger.hpp:88-99 | the reference: the index just after the last separator, with no separator after it |
| Logger.FileName | src/include/logger.hpp:88-99 | for a C string (no NUL inside), the result is a suffix of the path, holds no separator, and is preceded by a separator unless it is the whole path |
| Logger.NoSeparatorKeepsPath | src/include/logger.hpp:90-98 | a path without a separator is returned whole |
| Logger.TrailingSeparatorEmpty | src/include/logger.hpp:93-95 | a path ending in a separator gives the empty name |
| Logger.AfterSeparator | src/include/logger.hpp:91-97 | `dir + sep + name`, with no separator in `name`, gives `name` |
| Logger.UnixExample | src/include/logger.hpp:82-86 | with '/', `src/rss.cpp` gives `rss.cpp` |

Where the code does not do what its comments and names suggest, the model follows the code:

- The cache file is named after the channel title with newlines removed and tags
  not yet removed. The record stores the tag-stripped title, and the lookup
  uses it. A feed with a tagged title is therefore not found under the file
  it wrote (`CacheKeyAgrees`, `TaggedTitleMissesOwnCache`).
- A ttl of 0 does not force a download within the minute of the last check,
  because the comparison is strict (`ZeroTtlSameMinute`). The cache is then
  tried first.
- `RssImage::fromXML` keeps the fields it filled before a failure: title, url
  and size. It does not return a fully empty image.
- An enclosure is titled "Attachment" even when it has no `url` attribute.
- Item and channel titles and descriptions may be empty after tag stripping.
  Nothing checks this.
- A channel whose stripped title is empty ends the reading of the record at
  its entry.
- A record under 10 bytes is read as empty (`ShortRecordLost`).
- The cache file is written before tag stripping, so a `cleanHTML` hang after
  it still leaves the file written (`ParseChannelSaves`).

## Left out

- HTTP, XML parsing and image decoding are oracles (`fetch`, `load`). A failed HTTP GET and a failed parse are both `FetchFailed`.
- The shared image file `cache`, the OpenGL texture, `stbi_load`'s pixel data and the GL calls are not modelled. Only the decoded size and `filled` are.
- The clock is one `now` per call. `loadChannelsFromRecord` reads it once per entry; within one call the model uses the same minute for every entry.
- Logging (`logE`, `logW`, `logI`) is left out, and so is the logger's `__logtofile`, which is pure I/O.
- Exception message text is not modelled. Errors are kinds (`MissingElement(name)`, `MissingAttribute(name)`, …). The same holds for `addChannel`'s wrapping, and for the slicing of `throw e` to `std::exception`, which changes only the message.
- File stream modes (`app`, `trunc`), `seekg`/`tellg`, and reopening the record are left out. The record is modelled as its text, and `tellg` as its length.
- The destructor's call to `writeRecord` is not modelled. `WriteRecord` is a method the caller invokes.
- Numbers.ParseUnsigned: models only decimal digits after white space. A sign, a `0x` prefix and `as_uint`'s exact overflow are not followed. In particular `strtoull` negates after a leading '-', so "-1" gives the largest `size_t` where the model gives 0.
- Numbers.SkipSpaces: skips the six C white-space characters, as `strtoull` does; pugixml's `as_uint` skips only ' ', '\t', '\r' and '\n', so a leading '\v' or '\f' before a number in the XML gives 0 there and the number here.
- Concurrency is not modelled; the core itself has no synchronisation.
- Feeds.Saved: every `save_file` is taken to succeed and to read back as the same document. The source ignores the result of `save_file`, so a title holding a path separator, or a missing `cached/` directory, makes the write fail and a later lookup miss; neither is modelled.
- Rss.ParseChannel: a `Null` document yields `EmptyDocument`, following the `xmlDoc.empty()` check at src/rss.cpp:194. In pugixml a document object is never an empty handle, so this error cannot occur there; the branch is kept only because the code has it.
- Feeds.FeedManager.LoadChannelsFromRecord: where a `cleanHTML` call would never return, the method stops and reports `stuck` instead of hanging. The channels appended before the hang are the same as in the source.
- Feeds.FeedManager.AddChannel: a hang is reported as `Some(Diverged)` instead of never returning.
- Cleaners.CleanHtml: requires that `cleanHTML` returns on its input. The callers decide divergence first through `Strip`, which models the non-terminating loop as `None`.
- A `string` here is the byte sequence of a `std::string`: one `char` per byte, so a UTF-8 'é' is two characters. The 10-byte size test on the record and every `find`/`erase` index count bytes, as in the source; character encodings are not modelled.
- A `std::list` of channels is modelled as a sequence. Element addresses and iterator stability are not modelled.

/** The subscription record `subscribed.txt`: four lines per channel (title,
    link, ttl, last-checked minute), written by `RssFeedManager::writeRecord` and
    read back, with `std::getline` and `strtoull`, by `loadChannelsFromRecord`. */
module Record {
  import opened Failures
  import opened Numbers

  /** One recorded subscription. */
  datatype Entry = Entry(title: string, url: string, ttl: SizeT, lastChecked: SizeT)

  /** The four lines `writeRecord` emits for one channel, each ended by `std::endl`. */
  function EntryText(e: Entry): string
  {
    e.title + "\n" + e.url + "\n" + ToDecimal(e.ttl) + "\n" + ToDecimal(e.lastChecked) + "\n"
  }

  /** The whole record for a list of entries, in list order. */
  function Serialize(es: seq<Entry>): string
  {
    if es == [] then [] else EntryText(es[0]) + Serialize(es[1..])
  }

  lemma {:induction false} SerializeAppend(es: seq<Entry>, e: Entry)
    ensures Serialize(es + [e]) == Serialize(es) + EntryText(e)
  {
    if es == [] {
      assert [e][1..] == [];
    } else {
      assert (es + [e])[0] == es[0] && (es + [e])[1..] == es[1..] + [e];
      SerializeAppend(es[1..], e);
    }
  }

  // ------------------------------------------------------------ reading

  /** The part of the record file not yet read, and its end-of-file flag. Once
      the flag is set every later `getline` fails and leaves its string argument
      as it was. */
  datatype Stream = Stream(rest: string, eof: bool)

  /** Index of the first '\n' in `s`, or `|s|` when there is none. */
  function NextNewline(s: string): (k: nat)
    ensures k <= |s|
    ensures k < |s| ==> s[k] == '\n'
  {
    if s == [] || s[0] == '\n' then 0 else 1 + NextNewline(s[1..])
  }

  /** The first '\n' after a line without one is the one that ends it. */
  lemma {:induction false} NextNewlineEndsLine(x: string, rest: string)
    requires '\n' !in x
    ensures NextNewline(x + "\n" + rest) == |x|
  {
    if x != [] {
      assert (x + "\n" + rest)[1..] == x[1..] + "\n" + rest;
      NextNewlineEndsLine(x[1..], rest);
    }
  }

  /** `std::getline(recordFile, str)`: the characters up to the next '\n', which
      is consumed; reaching the end sets the end-of-file flag. */
  function GetLine(st: Stream, str: string): (r: (string, Stream))
    ensures |r.1.rest| <= |st.rest|
    ensures st.eof ==> r == (str, st)
    ensures !st.eof && r.0 != [] ==> |r.1.rest| < |st.rest|
  {
    if st.eof then (str, st)
    else
      var k := NextNewline(st.rest);
      if k < |st.rest| then (st.rest[..k], Stream(st.rest[k + 1..], false))
      else (st.rest, Stream([], true))
  }

  /** The `while(!recordFile.eof())` loop of `loadChannelsFromRecord`: a title
      line, a url line and two numeric lines per entry; an empty title ends the
      loop. `line` is the buffer the numeric lines are read into, which a failed
      `getline` leaves holding its previous contents. */
  function ParseFrom(st: Stream, line: string): seq<Entry>
    decreases |st.rest|, if st.eof then 0 else 1
  {
    if st.eof then []
    else
      var (title, s1) := GetLine(st, "");
      if title == [] then []
      else
        var (url, s2) := GetLine(s1, "");
        var (ttlLine, s3) := GetLine(s2, line);
        var (lastLine, s4) := GetLine(s3, ttlLine);
        [Entry(title, url, ParseSizeT(ttlLine), ParseSizeT(lastLine))] + ParseFrom(s4, lastLine)
  }

  /** The loop stops at the end of the file or on an empty title. */
  lemma ParseFromStops(st: Stream, line: string)
    requires st.eof || GetLine(st, "").0 == []
    ensures ParseFrom(st, line) == []
  {
  }

  /** One turn of the loop: four reads give one entry, and the loop goes on
      from where they stopped with the buffer holding the last numeric line. */
  lemma ParseFromTurn(st: Stream, line: string, title: string, s1: Stream, url: string, s2: Stream,
                      ttlLine: string, s3: Stream, lastLine: string, s4: Stream)
    requires !st.eof && (title, s1) == GetLine(st, "") && title != []
    requires (url, s2) == GetLine(s1, "")
    requires (ttlLine, s3) == GetLine(s2, line)
    requires (lastLine, s4) == GetLine(s3, ttlLine)
    ensures |s4.rest| < |st.rest|
    ensures ParseFrom(st, line)
         == [Entry(title, url, ParseSizeT(ttlLine), ParseSizeT(lastLine))] + ParseFrom(s4, lastLine)
  {
  }

  /** The body of the reading loop up to the clock: the title, url, ttl and
      last-checked lines of one entry, or nothing when the title line is empty. */
  method ReadEntry(st: Stream, line: string) returns (e: Option<Entry>, next: Stream, buffer: string)
    requires !st.eof
    ensures e.None? ==> ParseFrom(st, line) == []
    ensures e.Some? ==> |next.rest| < |st.rest| && ParseFrom(st, line) == [e.value] + ParseFrom(next, buffer)
  {
    var title: string;
    title, next := GetLine(st, "").0, GetLine(st, "").1;
    if title == [] {
      ParseFromStops(st, line);
      return None, next, line;
    }
    ghost var s1 := next;
    var url: string;
    url, next := GetLine(next, "").0, GetLine(next, "").1;
    ghost var s2 := next;
    buffer, next := GetLine(next, line).0, GetLine(next, line).1;
    var ttl := ParseSizeT(buffer);
    ghost var l3, s3 := buffer, next;
    buffer, next := GetLine(next, buffer).0, GetLine(next, buffer).1;
    var lastUpdate := ParseSizeT(buffer);
    e := Some(Entry(title, url, ttl, lastUpdate));
    ParseFromTurn(st, line, title, s1, url, s2, l3, s3, buffer, next);
  }

  /** The entries `loadChannelsFromRecord` reads: none from a file under 10 bytes. */
  function ParseRecord(text: string): seq<Entry>
  {
    if |text| < 10 then [] else ParseFrom(Stream(text, false), "")
  }

  // ------------------------------------------------------------ round trip

  /** An entry whose title and url fit on one line each. */
  predicate Writable(e: Entry) { '\n' !in e.title && '\n' !in e.url }

  /** The entries up to, not including, the first one with an empty title. */
  function TakeTitled(es: seq<Entry>): (r: seq<Entry>)
    ensures r <= es
    ensures (forall k :: 0 <= k < |es| ==> es[k].title != []) ==> r == es
    ensures forall k :: 0 <= k < |r| ==> r[k].title != []
  {
    if es == [] || es[0].title == [] then []
    else
      var r := [es[0]] + TakeTitled(es[1..]);
      assert forall k :: 1 <= k < |es| ==> es[k] == es[1..][k - 1];
      r
  }

  /** `getline` on a line `x` followed by `rest` returns `x` and leaves `rest`. */
  lemma ReadLine(x: string, rest: string, str: string)
    requires '\n' !in x
    ensures GetLine(Stream(x + "\n" + rest, false), str) == (x, Stream(rest, false))
  {
    var s := x + "\n" + rest;
    NextNewlineEndsLine(x, rest);
    assert s[..|x|] == x && s[|x| + 1..] == rest;
  }

  /** One turn of the reading loop over four newline-terminated lines. */
  lemma FourLines(a: string, b: string, c: string, d: string, rest: string, line: string)
    requires '\n' !in a && '\n' !in b && '\n' !in c && '\n' !in d && a != []
    ensures ParseFrom(Stream(a + "\n" + (b + "\n" + (c + "\n" + (d + "\n" + rest))), false), line)
         == [Entry(a, b, ParseSizeT(c), ParseSizeT(d))] + ParseFrom(Stream(rest, false), d)
  {
    var r3 := d + "\n" + rest;
    var r2 := c + "\n" + r3;
    var r1 := b + "\n" + r2;
    ReadLine(a, r1, "");
    ReadLine(b, r2, "");
    ReadLine(c, r3, line);
    ReadLine(d, rest, c);
  }

  /** A written entry is its four lines, each followed by the rest. */
  lemma EntryLines(e: Entry, rest: string)
    ensures EntryText(e) + rest
         == e.title + "\n" + (e.url + "\n" + (ToDecimal(e.ttl) + "\n" + (ToDecimal(e.lastChecked) + "\n" + rest)))
  {
  }

  /** One turn of the reading loop over a written entry gives the entry back. */
  lemma EntryStep(e: Entry, rest: string, line: string)
    requires Writable(e) && e.title != []
    ensures ParseFrom(Stream(EntryText(e) + rest, false), line)
         == [e] + ParseFrom(Stream(rest, false), ToDecimal(e.lastChecked))
  {
    var ts, ls := ToDecimal(e.ttl), ToDecimal(e.lastChecked);
    DecimalRoundTrip(e.ttl);
    DecimalRoundTrip(e.lastChecked);
    EntryLines(e, rest);
    FourLines(e.title, e.url, ts, ls, rest, line);
  }

  /** Reading a written record gives back its entries up to the first one with
      an empty title: `getline` returns "" for that title and the loop stops. */
  lemma {:induction false} ParseSerialized(es: seq<Entry>, line: string)
    requires forall k :: 0 <= k < |es| ==> Writable(es[k])
    ensures ParseFrom(Stream(Serialize(es), false), line) == TakeTitled(es)
    decreases |es|
  {
    if es != [] {
      var e := es[0];
      if e.title == [] {
        var rest := e.url + "\n" + ToDecimal(e.ttl) + "\n" + ToDecimal(e.lastChecked) + "\n" + Serialize(es[1..]);
        assert Serialize(es) == "" + "\n" + rest;
        ReadLine("", rest, "");
      } else {
        assert forall k :: 0 <= k < |es[1..]| ==> Writable(es[1..][k]) by {
          forall k | 0 <= k < |es[1..]| ensures Writable(es[1..][k]) {
            assert es[1..][k] == es[k + 1];
          }
        }
        EntryStep(e, Serialize(es[1..]), line);
        ParseSerialized(es[1..], ToDecimal(e.lastChecked));
      }
    }
  }

  /** What `writeRecord` writes, `loadChannelsFromRecord` reads back: the same
      entries in the same order, up to the first empty title, unless the whole
      record is under 10 bytes, in which case nothing. */
  lemma RecordRoundTrip(es: seq<Entry>)
    requires forall k :: 0 <= k < |es| ==> Writable(es[k])
    ensures ParseRecord(Serialize(es)) == if |Serialize(es)| < 10 then [] else TakeTitled(es)
  {
    if |Serialize(es)| >= 10 {
      ParseSerialized(es, "");
    }
  }

  /** A one-entry record with a short title and url is under 10 bytes and is
      lost: an instance of RecordRoundTrip. */
  lemma ShortRecordLost()
    ensures ParseRecord(Serialize([Entry("a", "u", 0, 0)])) == []
  {
    assert |Serialize([Entry("a", "u", 0, 0)])| == 8;
  }
}

/** The RSS endpoint `/rss/:feedId`: the twenty newest emails of a feed as an RSS document. */
module Rss {
  import opened Wrappers
  import opened Text
  import opened Types
  import opened Storage
  import opened FeedGenerator
  import Inbound

  /** An HTTP response: status, the two headers the endpoint sets, and the document. */
  datatype Response = Response(
    status: nat,
    contentType: Option<string>,
    cacheControl: Option<string>,
    body: Option<RssDocument>)

  function Plain(status: nat): Response { Response(status, None, None, None) }

  const MaxItems: nat := 20
  const RssContentType: string := "application/rss+xml"
  const CacheControl: string := "max-age=1800"

  /** The configuration used when a feed has an index but no stored configuration. */
  function DefaultConfig(feedId: string, domain: string, now: int): (c: FeedConfig)
    ensures c.title == "Newsletter Feed " + feedId
    ensures c.description == Some("Converted email newsletter")
    ensures c.language == "en" && c.author.None? && c.siteUrl == c.feedUrl
    ensures c.feedUrl == "https://" + domain + "/rss/" + feedId
    ensures c.createdAt == now && c.updatedAt.None?
  {
    var url := "https://" + domain + "/rss/" + feedId;
    FeedConfig("Newsletter Feed " + feedId, Some("Converted email newsletter"), "en",
               url, url, now, None, None)
  }

  /** The stored emails an index points at, in index order, skipping entries whose email
      is gone. */
  function Hydrate(entries: map<string, Value>, refs: seq<EmailMetadata>): (emails: seq<EmailData>)
    ensures |emails| <= |refs|
    ensures forall x :: x in emails ==>
      exists i :: 0 <= i < |refs| && EmailAt(entries, refs[i].key) == Some(x)
  {
    if refs == [] then []
    else
      var init := Hydrate(entries, refs[..|refs| - 1]);
      assert forall i :: 0 <= i < |refs| - 1 ==> refs[..|refs| - 1][i] == refs[i];
      match EmailAt(entries, refs[|refs| - 1].key)
      case Some(e) => init + [e]
      case None => init
  }

  /** Hydration works entry by entry: the emails of two index slices, one after the other. */
  lemma {:induction false} HydrateAppend(entries: map<string, Value>, a: seq<EmailMetadata>, b: seq<EmailMetadata>)
    ensures Hydrate(entries, a + b) == Hydrate(entries, a) + Hydrate(entries, b)
    decreases |b|
  {
    if b == [] {
      assert a + b == a;
    } else {
      var init := b[..|b| - 1];
      var last := b[|b| - 1];
      assert (a + b)[..|a + b| - 1] == a + init;
      assert (a + b)[|a + b| - 1] == last;
      HydrateAppend(entries, a, init);
      var tail := if EmailAt(entries, last.key).Some? then [EmailAt(entries, last.key).value] else [];
      assert Hydrate(entries, a + b) == Hydrate(entries, a + init) + tail;
      assert Hydrate(entries, b) == Hydrate(entries, init) + tail;
      AppendAssoc(Hydrate(entries, a), Hydrate(entries, init), tail);
    }
  }

  /** One entry yields its stored email, or nothing when the email is gone. */
  lemma HydrateSingle(entries: map<string, Value>, r: EmailMetadata)
    ensures EmailAt(entries, r.key).Some? ==> Hydrate(entries, [r]) == [EmailAt(entries, r.key).value]
    ensures EmailAt(entries, r.key).None? ==> Hydrate(entries, [r]) == []
  {
    assert [r][..0] == [];
  }

  /** When every entry's email is stored, each entry yields its email, in order. */
  lemma {:induction false} HydrateAllPresent(entries: map<string, Value>, refs: seq<EmailMetadata>)
    requires forall i :: 0 <= i < |refs| ==> EmailAt(entries, refs[i].key).Some?
    ensures |Hydrate(entries, refs)| == |refs|
    ensures forall i :: 0 <= i < |refs| ==>
      Some(Hydrate(entries, refs)[i]) == EmailAt(entries, refs[i].key)
  {
    if refs != [] {
      var init := refs[..|refs| - 1];
      assert forall i :: 0 <= i < |init| ==> init[i] == refs[i];
      HydrateAllPresent(entries, init);
      var e := EmailAt(entries, refs[|refs| - 1].key).value;
      var h := Hydrate(entries, refs);
      assert h == Hydrate(entries, init) + [e];
      forall i | 0 <= i < |refs| ensures Some(h[i]) == EmailAt(entries, refs[i].key) {
        if i < |init| {
          assert h[i] == Hydrate(entries, init)[i];
        }
      }
    }
  }

  function ReadsOf(refs: seq<EmailMetadata>): (accesses: seq<Access>)
    ensures |accesses| == |refs|
    ensures forall i :: 0 <= i < |refs| ==> accesses[i] == Read(refs[i].key)
  {
    seq(|refs|, i requires 0 <= i < |refs| => Read(refs[i].key))
  }

  /** The response for an existing index: the document, or 500 where generation throws. */
  function FeedResponse(config: FeedConfig, emails: seq<EmailData>, domain: string, now: int, year: int,
                        hostnameOf: string -> Option<string>): (r: Response)
    ensures r.status == 200 || r.status == 500
    ensures r.status == 200 ==> r.body.Some? && |r.body.value.items| == |emails|
    ensures r.status == 500 <==> OptionsOf(config, now, year, hostnameOf).Failure?
    ensures r.status == 500 ==> r == Plain(500)
    ensures r.status == 200 ==>
      && r.contentType == Some(RssContentType) && r.cacheControl == Some(CacheControl)
      && r.body == Some(RssDocument(OptionsOf(config, now, year, hostnameOf).value,
                                    ItemsOf(emails, "https://" + domain)))
  {
    match OptionsOf(config, now, year, hostnameOf)
    case Failure(_) => Plain(500)
    case Success(options) =>
      Response(200, Some(RssContentType), Some(CacheControl),
               Some(RssDocument(options, ItemsOf(emails, "https://" + domain))))
  }

  /** The hydration loop of `handle`. */
  method FetchEmails(store: KvStore, refs: seq<EmailMetadata>) returns (emails: seq<EmailData>)
    modifies store`log
    ensures emails == Hydrate(store.entries, refs)
    ensures store.log == old(store.log) + ReadsOf(refs)
  {
    emails := [];
    var i := 0;
    while i < |refs|
      invariant 0 <= i <= |refs|
      invariant emails == Hydrate(store.entries, refs[..i])
      invariant store.log == old(store.log) + ReadsOf(refs[..i])
    {
      assert refs[..i + 1][..i] == refs[..i];
      assert ReadsOf(refs[..i + 1]) == ReadsOf(refs[..i]) + [Read(refs[i].key)];
      AppendAssoc(old(store.log), ReadsOf(refs[..i]), [Read(refs[i].key)]);
      var e := store.GetEmail(refs[i].key);
      if e.Some? {
        emails := emails + [e.value];
      }
      i := i + 1;
    }
    assert refs[..i] == refs;
  }

  /** `handle`. `now` is the clock reading (`new Date()` and the default configuration's
      creation time), `year` its calendar year, and `hostnameOf` stands for
      `new URL(url).hostname`. The namespace is only read. */
  method HandleRss(store: KvStore, feedId: string, domain: string, now: int, year: int,
                   hostnameOf: string -> Option<string>) returns (response: Response)
    modifies store`log
    ensures store.entries == old(store.entries)
    ensures feedId == "" ==> response == Plain(400) && store.log == old(store.log)
    ensures feedId != "" && MetadataAt(store.entries, MetadataKey(feedId)).None? ==>
      response == Plain(404) && store.log == old(store.log) + [Read(MetadataKey(feedId))]
    ensures feedId != "" && MetadataAt(store.entries, MetadataKey(feedId)).Some? ==>
      var refs := Take(MetadataAt(store.entries, MetadataKey(feedId)).value.emails, MaxItems);
      var config := ConfigAt(store.entries, ConfigKey(feedId)).GetOr(DefaultConfig(feedId, domain, now));
      && response == FeedResponse(config, Hydrate(store.entries, refs), domain, now, year, hostnameOf)
      && store.log == old(store.log) + [Read(MetadataKey(feedId))] + ServeAccesses(feedId, refs)
  {
    if feedId == "" {
      return Plain(400);
    }
    var metadata := store.GetMetadata(MetadataKey(feedId));
    if metadata.None? {
      return Plain(404);
    }
    response := ServeFeed(store, feedId, metadata.value, domain, now, year, hostnameOf);
  }

  /** The calls `handle` makes once the index was found: the configuration, then each
      email shown. */
  function ServeAccesses(feedId: string, refs: seq<EmailMetadata>): seq<Access> {
    [Read(ConfigKey(feedId))] + ReadsOf(refs)
  }

  /** The part of `handle` after the index was found. */
  method ServeFeed(store: KvStore, feedId: string, metadata: FeedMetadata, domain: string, now: int,
                   year: int, hostnameOf: string -> Option<string>) returns (response: Response)
    modifies store`log
    ensures var refs := Take(metadata.emails, MaxItems);
      var config := ConfigAt(store.entries, ConfigKey(feedId)).GetOr(DefaultConfig(feedId, domain, now));
      && response == FeedResponse(config, Hydrate(store.entries, refs), domain, now, year, hostnameOf)
      && store.log == old(store.log) + ServeAccesses(feedId, refs)
  {
    var refs := Take(metadata.emails, MaxItems);
    AppendAssoc(store.log, [Read(ConfigKey(feedId))], ReadsOf(refs));
    var stored := store.GetConfig(ConfigKey(feedId));
    var config := stored.GetOr(DefaultConfig(feedId, domain, now));
    var emails := FetchEmails(store, refs);
    var document := GenerateRssFeed(config, emails, "https://" + domain, now, year, hostnameOf);
    if document.Failure? {
      return Plain(500);
    }
    response := Response(200, Some(RssContentType), Some(CacheControl), Some(document.value));
  }

  /** After deliveries at distinct times into an empty index, the j-th entry shown points
      at the j-th newest email, still stored. */
  lemma NewestEntries(entries: map<string, Value>, feedId: string, arrivals: seq<Inbound.Arrival>)
    requires IndexOf(entries, feedId) == [] && Inbound.DistinctTimes(arrivals)
    ensures var after := Inbound.IngestAll(entries, feedId, arrivals);
      var refs := Take(IndexOf(after, feedId), MaxItems);
      && |refs| == |Take(arrivals, MaxItems)|
      && forall j :: 0 <= j < |refs| ==>
           EmailAt(after, refs[j].key) == Some(arrivals[|arrivals| - 1 - j].email)
  {
    var after := Inbound.IngestAll(entries, feedId, arrivals);
    var index := IndexOf(after, feedId);
    IndexEntriesStored(entries, feedId, arrivals);
    var refs := Take(index, MaxItems);
    forall j | 0 <= j < |refs|
      ensures EmailAt(after, refs[j].key) == Some(arrivals[|arrivals| - 1 - j].email)
    {
      assert refs[j] == index[j];
    }
  }

  /** The whole index after those deliveries: one entry per delivery, the j-th pointing at
      the j-th newest email. */
  lemma IndexEntriesStored(entries: map<string, Value>, feedId: string, arrivals: seq<Inbound.Arrival>)
    requires IndexOf(entries, feedId) == [] && Inbound.DistinctTimes(arrivals)
    ensures var after := Inbound.IngestAll(entries, feedId, arrivals);
      var index := IndexOf(after, feedId);
      && |index| == |arrivals|
      && forall j :: 0 <= j < |index| ==>
           EmailAt(after, index[j].key) == Some(arrivals[|arrivals| - 1 - j].email)
  {
    var after := Inbound.IngestAll(entries, feedId, arrivals);
    Inbound.IndexAfterArrivals(entries, feedId, arrivals);
    var entriesOf := Inbound.EntriesOf(feedId, arrivals);
    var index := IndexOf(after, feedId);
    assert index == Inbound.Reversed(entriesOf) + [];
    var n := |arrivals|;
    forall j | 0 <= j < n
      ensures EmailAt(after, index[j].key) == Some(arrivals[n - 1 - j].email)
    {
      var k := n - 1 - j;
      assert index[j] == entriesOf[k];
      assert entriesOf[k].key == EmailKey(feedId, arrivals[k].at);
      Inbound.StoredAfterArrivals(entries, feedId, arrivals, k);
    }
  }

  /** A feed whose index started empty shows, after deliveries at distinct times, the
      twenty newest emails, newest first. */
  lemma NewestFirst(entries: map<string, Value>, feedId: string, arrivals: seq<Inbound.Arrival>)
    requires IndexOf(entries, feedId) == [] && Inbound.DistinctTimes(arrivals)
    ensures var after := Inbound.IngestAll(entries, feedId, arrivals);
      Hydrate(after, Take(IndexOf(after, feedId), MaxItems))
        == Take(Inbound.Reversed(Inbound.EmailsOf(arrivals)), MaxItems)
  {
    var after := Inbound.IngestAll(entries, feedId, arrivals);
    var refs := Take(IndexOf(after, feedId), MaxItems);
    NewestEntries(entries, feedId, arrivals);
    var expected := Take(Inbound.Reversed(Inbound.EmailsOf(arrivals)), MaxItems);
    NewestEmails(arrivals);
    HydrateExactly(after, refs, expected);
  }

  /** The twenty newest emails, as the deliveries give them. */
  lemma NewestEmails(arrivals: seq<Inbound.Arrival>)
    ensures var expected := Take(Inbound.Reversed(Inbound.EmailsOf(arrivals)), MaxItems);
      && |expected| == |Take(arrivals, MaxItems)|
      && forall j :: 0 <= j < |expected| ==> expected[j] == arrivals[|arrivals| - 1 - j].email
  {
    var newest := Inbound.Reversed(Inbound.EmailsOf(arrivals));
    var expected := Take(newest, MaxItems);
    forall j | 0 <= j < |expected| ensures expected[j] == arrivals[|arrivals| - 1 - j].email {
      assert expected[j] == newest[j];
      assert newest[j] == Inbound.EmailsOf(arrivals)[|arrivals| - 1 - j];
    }
  }

  lemma HydrateExactly(entries: map<string, Value>, refs: seq<EmailMetadata>, expected: seq<EmailData>)
    requires |refs| == |expected|
    requires forall j :: 0 <= j < |refs| ==> EmailAt(entries, refs[j].key) == Some(expected[j])
    ensures Hydrate(entries, refs) == expected
  {
    HydrateAllPresent(entries, refs);
  }
}

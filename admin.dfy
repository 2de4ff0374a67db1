/** The state-changing admin handlers (create, edit and delete a feed, delete an email)
    and the helpers that maintain the list of all feeds. */
module Admin {
  import opened Wrappers
  import opened Text
  import opened Types
  import opened Storage
  import EmailParser

  /** What a handler answers: `c.redirect(location)` or a text response with a status. */
  datatype Outcome = Redirect(location: string) | Status(code: nat)

  // ---------------------------------------------------------------------------
  // Form validation

  /** The fields of the create and edit forms; `None` for a field the form lacks. */
  datatype FeedForm = FeedForm(title: Option<string>, description: Option<string>, language: Option<string>)

  datatype ValidForm = ValidForm(title: string, description: Option<string>, language: string)

  /** Reading the form (`title || ''`, `language || 'en'`) and the schema check, which
      rejects an empty title. */
  function ValidateForm(form: FeedForm): (r: Option<ValidForm>)
    ensures r.Some? <==> Or(form.title, "") != ""
    ensures r.Some? ==> r.value.title == form.title.value && r.value.description == form.description
    ensures r.Some? ==> r.value.language == Or(form.language, "en") && r.value.language != ""
  {
    var title := Or(form.title, "");
    if title == "" then None else Some(ValidForm(title, form.description, Or(form.language, "en")))
  }

  // ---------------------------------------------------------------------------
  // Feed ids

  const IdChars: string := "abcdefghijklmnopqrstuvwxyz0123456789"
  const IdLength: nat := 8

  predicate IsIdChar(c: char) { 'a' <= c <= 'z' || IsDigit(c) }

  lemma IdCharsAreIdChars()
    ensures forall k :: 0 <= k < |IdChars| ==> IsIdChar(IdChars[k])
  {
  }

  /** `Math.floor(r * chars.length)` for a draw `r` of `Math.random()`. */
  function CharIndex(r: real): (k: nat)
    requires 0.0 <= r < 1.0
    ensures k < |IdChars|
    ensures k as real <= r * |IdChars| as real < k as real + 1.0
  {
    (r * |IdChars| as real).Floor
  }

  predicate ValidDraws(draws: seq<real>) {
    forall i :: 0 <= i < |draws| ==> 0.0 <= draws[i] < 1.0
  }

  /** The id spelled by a sequence of random draws, one character per draw. */
  function RandomId(draws: seq<real>): (id: string)
    requires ValidDraws(draws)
    ensures |id| == |draws|
    ensures forall i :: 0 <= i < |draws| ==> id[i] == IdChars[CharIndex(draws[i])]
  {
    seq(|draws|, i requires 0 <= i < |draws| => IdChars[CharIndex(draws[i])])
  }

  /** `generateRandomId(length)`, with `draws` the successive values of `Math.random()`. */
  method GenerateRandomId(length: nat, draws: seq<real>) returns (id: string)
    requires |draws| == length && ValidDraws(draws)
    ensures id == RandomId(draws)
  {
    id := "";
    var i := 0;
    while i < length
      invariant 0 <= i <= length
      invariant id == RandomId(draws[..i])
    {
      assert RandomId(draws[..i + 1]) == RandomId(draws[..i]) + [IdChars[CharIndex(draws[i])]];
      id := id + [IdChars[CharIndex(draws[i])]];
      i := i + 1;
    }
    assert draws[..i] == draws;
  }

  /** Generated ids are lower-case letters and digits only. */
  lemma RandomIdChars(draws: seq<real>)
    requires ValidDraws(draws)
    ensures forall i :: 0 <= i < |draws| ==> IsIdChar(RandomId(draws)[i])
    ensures AllAlnum(RandomId(draws)) && ':' !in RandomId(draws)
  {
    IdCharsAreIdChars();
  }

  /** Mail to `newsletter-<id>@<domain>` reaches a feed with a generated id. */
  lemma RandomIdRoutesMail(draws: seq<real>, domain: string)
    requires ValidDraws(draws) && |draws| > 0
    ensures EmailParser.ExtractFeedId(EmailParser.AddressPrefix + RandomId(draws) + "@" + domain)
         == Some(RandomId(draws))
  {
    RandomIdChars(draws);
    EmailParser.ExtractFeedIdOf(RandomId(draws), domain);
  }

  // ---------------------------------------------------------------------------
  // The list of all feeds

  /** `addFeedToList`. */
  method AddFeedToList(store: KvStore, feedId: string, title: string)
    modifies store
    ensures store.entries ==
      old(store.entries)[FeedListKey := FeedListValue(FeedList(FeedsOf(old(store.entries)) + [FeedListEntry(feedId, title)]))]
    ensures store.log == old(store.log) + [Read(FeedListKey), Write(FeedListKey)]
  {
    var list := store.GetFeedList(FeedListKey);
    var feeds := if list.Some? then list.value.feeds else [];
    store.Put(FeedListKey, FeedListValue(FeedList(feeds + [FeedListEntry(feedId, title)])));
  }

  /** `findIndex`: the first entry with the id. */
  function FindFeed(feeds: seq<FeedListEntry>, feedId: string): (i: Option<nat>)
    ensures i.Some? ==> i.value < |feeds| && feeds[i.value].id == feedId
    ensures i.Some? ==> forall j :: 0 <= j < i.value ==> feeds[j].id != feedId
    ensures i.None? ==> forall j :: 0 <= j < |feeds| ==> feeds[j].id != feedId
  {
    if feeds == [] then None
    else if feeds[0].id == feedId then Some(0)
    else
      match FindFeed(feeds[1..], feedId)
      case Some(i) => Some(i + 1)
      case None => None
  }

  /** The first entry with the id renamed. */
  function Retitle(feeds: seq<FeedListEntry>, feedId: string, title: string): (r: seq<FeedListEntry>)
    ensures |r| == |feeds|
    ensures forall j :: 0 <= j < |feeds| ==> r[j].id == feeds[j].id
  {
    match FindFeed(feeds, feedId)
    case Some(i) => feeds[i := feeds[i].(title := title)]
    case None => feeds
  }

  /** Renaming keeps every id in place and changes the title of the first entry with the
      id only. */
  lemma RetitleEffect(feeds: seq<FeedListEntry>, feedId: string, title: string)
    ensures var r := Retitle(feeds, feedId, title);
      forall j :: 0 <= j < |feeds| ==>
        r[j] == if FindFeed(feeds, feedId) == Some(j) then FeedListEntry(feedId, title) else feeds[j]
  {
  }

  /** `updateFeedInList`: writes only when the feed is listed. */
  method UpdateFeedInList(store: KvStore, feedId: string, title: string)
    modifies store
    ensures FindFeed(FeedsOf(old(store.entries)), feedId).None? ==>
      store.entries == old(store.entries) && store.log == old(store.log) + [Read(FeedListKey)]
    ensures FindFeed(FeedsOf(old(store.entries)), feedId).Some? ==>
      && store.entries == old(store.entries)[FeedListKey :=
           FeedListValue(FeedList(Retitle(FeedsOf(old(store.entries)), feedId, title)))]
      && store.log == old(store.log) + [Read(FeedListKey), Write(FeedListKey)]
  {
    var list := store.GetFeedList(FeedListKey);
    var feeds := if list.Some? then list.value.feeds else [];
    var index := FindFeed(feeds, feedId);
    if index.Some? {
      store.Put(FeedListKey, FeedListValue(FeedList(Retitle(feeds, feedId, title))));
    }
  }

  function WithoutFeed(feeds: seq<FeedListEntry>, feedId: string): (r: seq<FeedListEntry>)
    ensures forall j :: 0 <= j < |r| ==> r[j].id != feedId
    ensures (exists j :: 0 <= j < |feeds| && feeds[j].id == feedId) ==> |r| < |feeds|
  {
    var keep := (f: FeedListEntry) => f.id != feedId;
    var r := Filter(feeds, keep);
    assert forall j :: 0 <= j < |r| ==> r[j] in r && keep(r[j]);
    if exists j :: 0 <= j < |feeds| && feeds[j].id == feedId then
      var j :| 0 <= j < |feeds| && feeds[j].id == feedId;
      FilterDrops(feeds, keep, j);
      r
    else r
  }

  /** Removal drops exactly the entries with the id and keeps the others in order. */
  lemma WithoutFeedEffect(feeds: seq<FeedListEntry>, feedId: string)
    ensures forall f :: f in WithoutFeed(feeds, feedId) <==> f in feeds && f.id != feedId
    ensures (forall j :: 0 <= j < |feeds| ==> feeds[j].id != feedId) ==> WithoutFeed(feeds, feedId) == feeds
  {
    if forall j :: 0 <= j < |feeds| ==> feeds[j].id != feedId {
      FilterKeepsAll(feeds, (f: FeedListEntry) => f.id != feedId);
    }
  }

  /** `removeFeedFromList`. */
  method RemoveFeedFromList(store: KvStore, feedId: string)
    modifies store
    ensures store.entries ==
      old(store.entries)[FeedListKey := FeedListValue(FeedList(WithoutFeed(FeedsOf(old(store.entries)), feedId)))]
    ensures store.log == old(store.log) + [Read(FeedListKey), Write(FeedListKey)]
  {
    var list := store.GetFeedList(FeedListKey);
    var feeds := if list.Some? then list.value.feeds else [];
    store.Put(FeedListKey, FeedListValue(FeedList(WithoutFeed(feeds, feedId))));
  }

  /** What the dashboard shows for a feed. */
  datatype FeedSummary = FeedSummary(id: string, title: string, description: Option<string>)

  /** The listed feeds that still have a configuration, in list order, with the title
      and description of that configuration. */
  function Summaries(entries: map<string, Value>, feeds: seq<FeedListEntry>): (r: seq<FeedSummary>)
    ensures |r| <= |feeds|
    ensures forall k :: 0 <= k < |r| ==>
      && ConfigAt(entries, ConfigKey(r[k].id)).Some?
      && r[k].title == ConfigAt(entries, ConfigKey(r[k].id)).value.title
  {
    if feeds == [] then []
    else
      var init := Summaries(entries, feeds[..|feeds| - 1]);
      var id := feeds[|feeds| - 1].id;
      match ConfigAt(entries, ConfigKey(id))
      case Some(c) => init + [FeedSummary(id, c.title, c.description)]
      case None => init
  }

  /** Summarising works entry by entry: the summaries of two list slices, one after the other. */
  lemma {:induction false} SummariesAppend(entries: map<string, Value>, a: seq<FeedListEntry>, b: seq<FeedListEntry>)
    ensures Summaries(entries, a + b) == Summaries(entries, a) + Summaries(entries, b)
    decreases |b|
  {
    if b == [] {
      assert a + b == a;
    } else {
      var init := b[..|b| - 1];
      var last := b[|b| - 1];
      assert (a + b)[..|a + b| - 1] == a + init;
      assert (a + b)[|a + b| - 1] == last;
      SummariesAppend(entries, a, init);
      var config := ConfigAt(entries, ConfigKey(last.id));
      var tail := if config.Some? then [FeedSummary(last.id, config.value.title, config.value.description)] else [];
      assert Summaries(entries, a + b) == Summaries(entries, a + init) + tail;
      assert Summaries(entries, b) == Summaries(entries, init) + tail;
      AppendAssoc(Summaries(entries, a), Summaries(entries, init), tail);
    }
  }

  /** A listed feed is shown with the title and description of its configuration, and
      skipped when it has none. */
  lemma SummariesSingle(entries: map<string, Value>, f: FeedListEntry)
    ensures ConfigAt(entries, ConfigKey(f.id)).Some? ==>
      var c := ConfigAt(entries, ConfigKey(f.id)).value;
      Summaries(entries, [f]) == [FeedSummary(f.id, c.title, c.description)]
    ensures ConfigAt(entries, ConfigKey(f.id)).None? ==> Summaries(entries, [f]) == []
  {
    assert [f][..0] == [];
  }

  function ConfigReads(feeds: seq<FeedListEntry>): (accesses: seq<Access>)
    ensures |accesses| == |feeds|
    ensures forall i :: 0 <= i < |feeds| ==> accesses[i] == Read(ConfigKey(feeds[i].id))
  {
    seq(|feeds|, i requires 0 <= i < |feeds| => Read(ConfigKey(feeds[i].id)))
  }

  /** `listAllFeeds`. */
  method ListAllFeeds(store: KvStore) returns (summaries: seq<FeedSummary>)
    modifies store`log
    ensures summaries == Summaries(store.entries, FeedsOf(store.entries))
    ensures store.log == old(store.log) + [Read(FeedListKey)] + ConfigReads(FeedsOf(store.entries))
  {
    var list := store.GetFeedList(FeedListKey);
    var feeds := if list.Some? then list.value.feeds else [];
    summaries := [];
    var i := 0;
    ghost var start := store.log;
    while i < |feeds|
      invariant 0 <= i <= |feeds|
      invariant summaries == Summaries(store.entries, feeds[..i])
      invariant store.log == start + ConfigReads(feeds[..i])
    {
      assert feeds[..i + 1][..i] == feeds[..i];
      assert ConfigReads(feeds[..i + 1]) == ConfigReads(feeds[..i]) + [Read(ConfigKey(feeds[i].id))];
      AppendAssoc(start, ConfigReads(feeds[..i]), [Read(ConfigKey(feeds[i].id))]);
      var config := store.GetConfig(ConfigKey(feeds[i].id));
      if config.Some? {
        summaries := summaries + [FeedSummary(feeds[i].id, config.value.title, config.value.description)];
      }
      i := i + 1;
    }
    assert feeds[..i] == feeds;
  }

  // ---------------------------------------------------------------------------
  // Creating a feed

  /** The configuration of a new feed; its URLs point at the `api.` host. */
  function NewConfig(form: ValidForm, feedId: string, domain: string, now: int): (c: FeedConfig)
    ensures c.title == form.title && c.description == form.description && c.language == form.language
    ensures c.siteUrl == c.feedUrl && |c.feedUrl| == |RssPath(domain)| + |feedId|
    ensures c.feedUrl[..|RssPath(domain)|] == RssPath(domain) && c.feedUrl[|RssPath(domain)|..] == feedId
    ensures c.createdAt == now && c.updatedAt.None? && c.author.None?
  {
    var url := RssPath(domain) + feedId;
    FeedConfig(form.title, form.description, form.language, url, url, now, None, None)
  }

  /** Where the feeds of the `api.` host are served. */
  function RssPath(domain: string): string { "https://api." + domain + "/rss/" }

  /** The namespace after creating a feed: its configuration, an empty index, and an entry
      appended to the feed list. */
  function Created(entries: map<string, Value>, feedId: string, form: ValidForm, domain: string, now: int)
    : (after: map<string, Value>)
    ensures after.Keys == entries.Keys + {ConfigKey(feedId), MetadataKey(feedId), FeedListKey}
    ensures forall k :: k in entries && k !in {ConfigKey(feedId), MetadataKey(feedId), FeedListKey} ==>
      after[k] == entries[k]
  {
    var e := entries[ConfigKey(feedId) := ConfigValue(NewConfig(form, feedId, domain, now))]
                    [MetadataKey(feedId) := MetadataValue(FeedMetadata([]))];
    e[FeedListKey := FeedListValue(FeedList(FeedsOf(e) + [FeedListEntry(feedId, form.title)]))]
  }

  /** `POST /feeds`. `draws` are the `Math.random()` values behind the id. */
  method CreateFeed(store: KvStore, form: FeedForm, draws: seq<real>, domain: string, now: int)
    returns (outcome: Outcome)
    requires |draws| == IdLength && ValidDraws(draws)
    modifies store
    ensures ValidateForm(form).None? ==>
      outcome == Status(400) && store.entries == old(store.entries) && store.log == old(store.log)
    ensures ValidateForm(form).Some? ==>
      && outcome == Redirect("/admin")
      && store.entries == Created(old(store.entries), RandomId(draws), ValidateForm(form).value, domain, now)
      && store.log == old(store.log) + [Write(ConfigKey(RandomId(draws))), Write(MetadataKey(RandomId(draws))),
                                        Read(FeedListKey), Write(FeedListKey)]
  {
    var valid := ValidateForm(form);
    if valid.None? {
      return Status(400);
    }
    var feedId := GenerateRandomId(IdLength, draws);
    store.Put(ConfigKey(feedId), ConfigValue(NewConfig(valid.value, feedId, domain, now)));
    store.Put(MetadataKey(feedId), MetadataValue(FeedMetadata([])));
    AddFeedToList(store, feedId, valid.value.title);
    outcome := Redirect("/admin");
  }

  /** A newly created feed accepts mail at once: its address yields its id, its
      configuration is stored and its index is empty. */
  lemma CreatedFeedAcceptsMail(entries: map<string, Value>, draws: seq<real>, form: ValidForm,
                               domain: string, now: int, mailDomain: string)
    requires |draws| == IdLength && ValidDraws(draws)
    ensures var id := RandomId(draws);
      var after := Created(entries, id, form, domain, now);
      && EmailParser.ExtractFeedId(EmailParser.AddressPrefix + id + "@" + mailDomain) == Some(id)
      && ConfigAt(after, ConfigKey(id)) == Some(NewConfig(form, id, domain, now))
      && MetadataAt(after, MetadataKey(id)) == Some(FeedMetadata([]))
  {
    var id := RandomId(draws);
    RandomIdRoutesMail(draws, mailDomain);
    FeedKeysDistinct(id, id);
  }

  /** A newly created feed is listed last on the dashboard, with its title. */
  lemma CreatedFeedListed(entries: map<string, Value>, feedId: string, form: ValidForm, domain: string, now: int)
    ensures var after := Created(entries, feedId, form, domain, now);
      var shown := Summaries(after, FeedsOf(after));
      |shown| > 0 && shown[|shown| - 1] == FeedSummary(feedId, form.title, form.description)
  {
    FeedKeysDistinct(feedId, feedId);
    var after := Created(entries, feedId, form, domain, now);
    var feeds := FeedsOf(after);
    assert |feeds| > 0 && feeds[|feeds| - 1] == FeedListEntry(feedId, form.title);
    assert ConfigAt(after, ConfigKey(feedId)) == Some(NewConfig(form, feedId, domain, now));
    var init := Summaries(after, feeds[..|feeds| - 1]);
    assert Summaries(after, feeds) == init + [FeedSummary(feedId, form.title, form.description)];
  }

  // ---------------------------------------------------------------------------
  // Editing a feed

  /** The stored configuration overwritten by the form, stamped with the update time;
      `createdAt`, the URLs and the author are kept. A form without a description clears
      it, since the spread sets it to `undefined`, which JSON drops. */
  function Edited(config: FeedConfig, form: ValidForm, now: int): (c: FeedConfig)
    ensures c.createdAt == config.createdAt && c.siteUrl == config.siteUrl
    ensures c.feedUrl == config.feedUrl && c.author == config.author
    ensures c.title == form.title && c.description == form.description && c.language == form.language
    ensures c.updatedAt == Some(now)
  {
    config.(title := form.title, description := form.description, language := form.language,
            updatedAt := Some(now))
  }

  /** `POST /feeds/:feedId/edit`. */
  method UpdateFeed(store: KvStore, feedId: string, form: FeedForm, now: int) returns (outcome: Outcome)
    modifies store
    ensures ValidateForm(form).None? ==>
      outcome == Status(400) && store.entries == old(store.entries) && store.log == old(store.log)
    ensures ValidateForm(form).Some? && ConfigAt(old(store.entries), ConfigKey(feedId)).None? ==>
      && outcome == Status(404) && store.entries == old(store.entries)
      && store.log == old(store.log) + [Read(ConfigKey(feedId))]
    ensures ValidateForm(form).Some? && ConfigAt(old(store.entries), ConfigKey(feedId)).Some? ==>
      var form' := ValidateForm(form).value;
      var e := old(store.entries)[ConfigKey(feedId) :=
        ConfigValue(Edited(ConfigAt(old(store.entries), ConfigKey(feedId)).value, form', now))];
      && outcome == Redirect("/admin")
      && (FindFeed(FeedsOf(e), feedId).None? ==> store.entries == e)
      && (FindFeed(FeedsOf(e), feedId).Some? ==>
            store.entries == e[FeedListKey := FeedListValue(FeedList(Retitle(FeedsOf(e), feedId, form'.title)))])
      && store.log == old(store.log) + [Read(ConfigKey(feedId)), Write(ConfigKey(feedId)), Read(FeedListKey)]
                      + (if FindFeed(FeedsOf(e), feedId).Some? then [Write(FeedListKey)] else [])
  {
    var valid := ValidateForm(form);
    if valid.None? {
      return Status(400);
    }
    var existing := store.GetConfig(ConfigKey(feedId));
    if existing.None? {
      return Status(404);
    }
    store.Put(ConfigKey(feedId), ConfigValue(Edited(existing.value, valid.value, now)));
    UpdateFeedInList(store, feedId, valid.value.title);
    outcome := Redirect("/admin");
  }

  // ---------------------------------------------------------------------------
  // Deleting a feed

  function KeysOf(refs: seq<EmailMetadata>): set<string> {
    set i | 0 <= i < |refs| :: refs[i].key
  }

  function RemoveAccesses(refs: seq<EmailMetadata>): (accesses: seq<Access>)
    ensures |accesses| == |refs|
    ensures forall i :: 0 <= i < |refs| ==> accesses[i] == Remove(refs[i].key)
  {
    seq(|refs|, i requires 0 <= i < |refs| => Remove(refs[i].key))
  }

  /** The deletion loop over a feed's index. */
  method DeleteEmails(store: KvStore, refs: seq<EmailMetadata>)
    modifies store
    ensures store.entries == old(store.entries) - KeysOf(refs)
    ensures store.log == old(store.log) + RemoveAccesses(refs)
  {
    var i := 0;
    while i < |refs|
      invariant 0 <= i <= |refs|
      invariant store.entries == old(store.entries) - KeysOf(refs[..i])
      invariant store.log == old(store.log) + RemoveAccesses(refs[..i])
    {
      assert KeysOf(refs[..i + 1]) == KeysOf(refs[..i]) + {refs[i].key} by {
        assert forall j :: 0 <= j < i ==> refs[..i + 1][j] == refs[..i][j];
      }
      assert RemoveAccesses(refs[..i + 1]) == RemoveAccesses(refs[..i]) + [Remove(refs[i].key)];
      store.Delete(refs[i].key);
      i := i + 1;
    }
    assert refs[..i] == refs;
  }

  /** The namespace after deleting a feed with index `refs`. */
  function Deleted(entries: map<string, Value>, feedId: string, refs: seq<EmailMetadata>): (after: map<string, Value>)
    ensures after.Keys == entries.Keys - KeysOf(refs) - {ConfigKey(feedId), MetadataKey(feedId)} + {FeedListKey}
  {
    var e := entries - KeysOf(refs) - {ConfigKey(feedId)} - {MetadataKey(feedId)};
    e[FeedListKey := FeedListValue(FeedList(WithoutFeed(FeedsOf(e), feedId)))]
  }

  /** `POST /feeds/:feedId/delete`. */
  method DeleteFeed(store: KvStore, feedId: string) returns (outcome: Outcome)
    modifies store
    ensures MetadataAt(old(store.entries), MetadataKey(feedId)).None? ==>
      && outcome == Status(404) && store.entries == old(store.entries)
      && store.log == old(store.log) + [Read(MetadataKey(feedId))]
    ensures MetadataAt(old(store.entries), MetadataKey(feedId)).Some? ==>
      var refs := MetadataAt(old(store.entries), MetadataKey(feedId)).value.emails;
      && outcome == Redirect("/admin")
      && store.entries == Deleted(old(store.entries), feedId, refs)
      && store.log == old(store.log) + [Read(MetadataKey(feedId))] + RemoveAccesses(refs)
                      + FeedRemovalAccesses(feedId)
  {
    var metadata := store.GetMetadata(MetadataKey(feedId));
    if metadata.None? {
      return Status(404);
    }
    DeleteEmails(store, metadata.value.emails);
    RemoveFeedRecords(store, feedId);
    outcome := Redirect("/admin");
  }

  function FeedRemovalAccesses(feedId: string): seq<Access> {
    [Remove(ConfigKey(feedId)), Remove(MetadataKey(feedId)), Read(FeedListKey), Write(FeedListKey)]
  }

  /** The end of a feed deletion: its configuration, its index and its list entry. */
  method RemoveFeedRecords(store: KvStore, feedId: string)
    modifies store
    ensures var e := old(store.entries) - {ConfigKey(feedId)} - {MetadataKey(feedId)};
      store.entries == e[FeedListKey := FeedListValue(FeedList(WithoutFeed(FeedsOf(e), feedId)))]
    ensures store.log == old(store.log) + FeedRemovalAccesses(feedId)
  {
    store.Delete(ConfigKey(feedId));
    store.Delete(MetadataKey(feedId));
    RemoveFeedFromList(store, feedId);
  }

  /** After a deletion nothing of the feed is left: no configuration, no index, no
      indexed email, no list entry; every other key is untouched. */
  lemma DeletedLeavesNothing(entries: map<string, Value>, feedId: string, refs: seq<EmailMetadata>)
    ensures var after := Deleted(entries, feedId, refs);
      && ConfigKey(feedId) !in after && MetadataKey(feedId) !in after
      && (forall i :: 0 <= i < |refs| && refs[i].key != FeedListKey ==> refs[i].key !in after)
      && (forall f :: f in FeedsOf(after) ==> f.id != feedId)
      && (forall k :: (k in entries && k !in KeysOf(refs) && k != ConfigKey(feedId)
                       && k != MetadataKey(feedId) && k != FeedListKey) ==> k in after && after[k] == entries[k])
  {
    FeedKeysDistinct(feedId, feedId);
    var e := entries - KeysOf(refs) - {ConfigKey(feedId)} - {MetadataKey(feedId)};
    WithoutFeedEffect(FeedsOf(e), feedId);
  }

  // ---------------------------------------------------------------------------
  // Deleting an email

  function WithoutEmail(index: seq<EmailMetadata>, emailKey: string): (r: seq<EmailMetadata>)
    ensures forall j :: 0 <= j < |r| ==> r[j].key != emailKey
    ensures (exists j :: 0 <= j < |index| && index[j].key == emailKey) ==> |r| < |index|
  {
    var keep := (m: EmailMetadata) => m.key != emailKey;
    var r := Filter(index, keep);
    assert forall j :: 0 <= j < |r| ==> r[j] in r && keep(r[j]);
    if exists j :: 0 <= j < |index| && index[j].key == emailKey then
      var j :| 0 <= j < |index| && index[j].key == emailKey;
      FilterDrops(index, keep, j);
      r
    else r
  }

  /** The namespace after deleting one email and its entry in the feed's index. */
  function EmailRemoved(entries: map<string, Value>, emailKey: string, feedId: string): (after: map<string, Value>)
    ensures after.Keys == entries.Keys - {emailKey} + {MetadataKey(feedId)}
    ensures forall k :: k in entries && k != emailKey && k != MetadataKey(feedId) ==> after[k] == entries[k]
  {
    var e := entries - {emailKey};
    e[MetadataKey(feedId) := MetadataValue(FeedMetadata(WithoutEmail(IndexOf(e, feedId), emailKey)))]
  }

  /** `POST /emails/:emailKey/delete`. `feedId` is the form's field, `None` when absent. */
  method DeleteEmail(store: KvStore, emailKey: string, feedId: Option<string>) returns (outcome: Outcome)
    modifies store
    ensures Or(feedId, "") == "" ==>
      outcome == Status(400) && store.entries == old(store.entries) && store.log == old(store.log)
    ensures Or(feedId, "") != "" ==>
      && outcome == Redirect("/admin/feeds/" + feedId.value + "/emails")
      && store.entries == EmailRemoved(old(store.entries), emailKey, feedId.value)
      && store.log == old(store.log) + [Remove(emailKey), Read(MetadataKey(feedId.value)), Write(MetadataKey(feedId.value))]
  {
    var id := Or(feedId, "");
    if id == "" {
      return Status(400);
    }
    store.Delete(emailKey);
    var metadata := store.GetMetadata(MetadataKey(id));
    var index := if metadata.Some? then metadata.value.emails else [];
    store.Put(MetadataKey(id), MetadataValue(FeedMetadata(WithoutEmail(index, emailKey))));
    outcome := Redirect("/admin/feeds/" + id + "/emails");
  }

  /** Deleting an email drops it and exactly its entries from the feed's index, keeping
      the order of the rest. */
  lemma EmailRemovedEffect(entries: map<string, Value>, emailKey: string, feedId: string)
    requires emailKey != MetadataKey(feedId)
    ensures var after := EmailRemoved(entries, emailKey, feedId);
      && emailKey !in after
      && IndexOf(after, feedId) == WithoutEmail(IndexOf(entries, feedId), emailKey)
      && (forall m :: m in IndexOf(after, feedId) <==> m in IndexOf(entries, feedId) && m.key != emailKey)
  {
  }

  /** Deleting an email that is not indexed by the feed leaves the index as it was. */
  lemma EmailRemovedUnindexed(entries: map<string, Value>, emailKey: string, feedId: string)
    requires emailKey != MetadataKey(feedId)
    requires forall i :: 0 <= i < |IndexOf(entries, feedId)| ==> IndexOf(entries, feedId)[i].key != emailKey
    ensures IndexOf(EmailRemoved(entries, emailKey, feedId), feedId) == IndexOf(entries, feedId)
  {
    FilterKeepsAll(IndexOf(entries, feedId), (m: EmailMetadata) => m.key != emailKey);
  }
}

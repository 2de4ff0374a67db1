/** The ForwardEmail.net webhook: an incoming email is stored and put at the front of
    its feed's index. */
module Inbound {
  import opened Wrappers
  import opened Text
  import opened Types
  import opened Storage
  import opened EmailParser

  /** The index entry for an email stored under `key`. */
  function EntryOf(key: string, email: EmailData): EmailMetadata {
    EmailMetadata(key, email.subject, email.receivedAt)
  }

  /** The namespace after a successful delivery at time `now`: the email under its own
      key, then the feed's index (read after that write) with the new entry in front. */
  function Ingest(entries: map<string, Value>, feedId: string, email: EmailData, now: nat)
    : (after: map<string, Value>)
    ensures after.Keys == entries.Keys + {EmailKey(feedId, now), MetadataKey(feedId)}
    ensures MetadataAt(after, MetadataKey(feedId)).Some?
  {
    var key := EmailKey(feedId, now);
    var stored := entries[key := EmailValue(email)];
    stored[MetadataKey(feedId) := MetadataValue(FeedMetadata([EntryOf(key, email)] + IndexOf(stored, feedId)))]
  }

  /** A delivery stores the email, puts its entry in front of the previous index, and
      leaves every other key alone. */
  lemma IngestEffect(entries: map<string, Value>, feedId: string, email: EmailData, now: nat)
    ensures var after := Ingest(entries, feedId, email, now);
      && EmailAt(after, EmailKey(feedId, now)) == Some(email)
      && IndexOf(after, feedId) == [EntryOf(EmailKey(feedId, now), email)] + IndexOf(entries, feedId)
      && after.Keys == entries.Keys + {EmailKey(feedId, now), MetadataKey(feedId)}
      && forall k :: k in entries && k != EmailKey(feedId, now) && k != MetadataKey(feedId) ==>
           after[k] == entries[k]
  {
    EmailKeyDistinct(feedId, now);
  }

  /** A delivery to one feed changes neither the configuration nor the index of another. */
  lemma IngestOtherFeed(entries: map<string, Value>, feedId: string, other: string, email: EmailData, now: nat)
    requires ':' !in feedId && ':' !in other && feedId != other
    ensures var after := Ingest(entries, feedId, email, now);
      && ConfigAt(after, ConfigKey(other)) == ConfigAt(entries, ConfigKey(other))
      && IndexOf(after, other) == IndexOf(entries, other)
  {
    var key := EmailKey(feedId, now);
    FeedIdOfEmailKey(feedId, now);
    FeedIdOfFeedKeys(feedId);
    FeedIdOfFeedKeys(other);
    assert key != ConfigKey(other) && key != MetadataKey(other);
    assert MetadataKey(feedId) != ConfigKey(other) && MetadataKey(feedId) != MetadataKey(other);
  }

  /** One delivered email and the clock reading its key was made from. */
  datatype Arrival = Arrival(email: EmailData, at: nat)

  /** Deliveries one after another, oldest first. */
  function IngestAll(entries: map<string, Value>, feedId: string, arrivals: seq<Arrival>)
    : map<string, Value>
    decreases |arrivals|
  {
    if arrivals == [] then entries
    else IngestAll(Ingest(entries, feedId, arrivals[0].email, arrivals[0].at), feedId, arrivals[1..])
  }

  function EntriesOf(feedId: string, arrivals: seq<Arrival>): (es: seq<EmailMetadata>)
    ensures |es| == |arrivals|
  {
    seq(|arrivals|, i requires 0 <= i < |arrivals| =>
      EntryOf(EmailKey(feedId, arrivals[i].at), arrivals[i].email))
  }

  function Reversed<T>(s: seq<T>): (r: seq<T>)
    ensures |r| == |s|
    ensures forall i :: 0 <= i < |s| ==> r[i] == s[|s| - 1 - i]
  {
    if s == [] then [] else Reversed(s[1..]) + [s[0]]
  }

  /** The index lists the deliveries newest first, in front of what it held before; no
      entry is merged or dropped, even when two deliveries share a millisecond. */
  lemma {:induction false} IndexAfterArrivals(entries: map<string, Value>, feedId: string, arrivals: seq<Arrival>)
    ensures IndexOf(IngestAll(entries, feedId, arrivals), feedId)
         == Reversed(EntriesOf(feedId, arrivals)) + IndexOf(entries, feedId)
    decreases |arrivals|
  {
    if arrivals != [] {
      var a := arrivals[0];
      var next := Ingest(entries, feedId, a.email, a.at);
      var es := EntriesOf(feedId, arrivals);
      var rest := EntriesOf(feedId, arrivals[1..]);
      assert IngestAll(entries, feedId, arrivals) == IngestAll(next, feedId, arrivals[1..]);
      IngestEffect(entries, feedId, a.email, a.at);
      assert IndexOf(next, feedId) == [es[0]] + IndexOf(entries, feedId);
      IndexAfterArrivals(next, feedId, arrivals[1..]);
      assert rest == es[1..];
      assert Reversed(es) == Reversed(rest) + [es[0]];
      AppendAssoc(Reversed(rest), [es[0]], IndexOf(entries, feedId));
    }
  }

  function EmailsOf(arrivals: seq<Arrival>): (emails: seq<EmailData>)
    ensures |emails| == |arrivals|
    ensures forall i :: 0 <= i < |arrivals| ==> emails[i] == arrivals[i].email
  {
    seq(|arrivals|, i requires 0 <= i < |arrivals| => arrivals[i].email)
  }

  predicate DistinctTimes(arrivals: seq<Arrival>) {
    forall i, j :: 0 <= i < j < |arrivals| ==> arrivals[i].at != arrivals[j].at
  }

  /** Later deliveries leave an email alone unless they reuse its key. */
  lemma {:induction false} IngestAllKeeps(entries: map<string, Value>, feedId: string, arrivals: seq<Arrival>, key: string)
    requires key != MetadataKey(feedId)
    requires forall j :: 0 <= j < |arrivals| ==> key != EmailKey(feedId, arrivals[j].at)
    ensures EmailAt(IngestAll(entries, feedId, arrivals), key) == EmailAt(entries, key)
    decreases |arrivals|
  {
    if arrivals != [] {
      var a := arrivals[0];
      IngestEffect(entries, feedId, a.email, a.at);
      IngestAllKeeps(Ingest(entries, feedId, a.email, a.at), feedId, arrivals[1..], key);
    }
  }

  /** With distinct clock readings, every delivered email is still stored at the end. */
  lemma {:induction false} StoredAfterArrivals(entries: map<string, Value>, feedId: string, arrivals: seq<Arrival>, i: nat)
    requires DistinctTimes(arrivals) && i < |arrivals|
    ensures EmailAt(IngestAll(entries, feedId, arrivals), EmailKey(feedId, arrivals[i].at))
         == Some(arrivals[i].email)
    decreases |arrivals|
  {
    var a := arrivals[0];
    var next := Ingest(entries, feedId, a.email, a.at);
    if i == 0 {
      IngestEffect(entries, feedId, a.email, a.at);
      EmailKeyDistinct(feedId, a.at);
      forall j | 0 <= j < |arrivals[1..]|
        ensures EmailKey(feedId, a.at) != EmailKey(feedId, arrivals[1..][j].at)
      {
        EmailKeyInjective(feedId, a.at, arrivals[j + 1].at);
      }
      IngestAllKeeps(next, feedId, arrivals[1..], EmailKey(feedId, a.at));
    } else {
      assert DistinctTimes(arrivals[1..]) by {
        forall k, j | 0 <= k < j < |arrivals[1..]| ensures arrivals[1..][k].at != arrivals[1..][j].at {
          assert arrivals[k + 1].at != arrivals[j + 1].at;
        }
      }
      StoredAfterArrivals(next, feedId, arrivals[1..], i - 1);
    }
  }

  /** Two deliveries in the same millisecond share a key: the second email overwrites the
      first, while the index holds two entries pointing at it. */
  lemma SameMillisecondOverwrites(entries: map<string, Value>, feedId: string, first: EmailData, second: EmailData, now: nat)
    ensures var after := Ingest(Ingest(entries, feedId, first, now), feedId, second, now);
      && EmailAt(after, EmailKey(feedId, now)) == Some(second)
      && IndexOf(after, feedId)[..2] == [EntryOf(EmailKey(feedId, now), second), EntryOf(EmailKey(feedId, now), first)]
  {
    IngestEffect(entries, feedId, first, now);
    IngestEffect(Ingest(entries, feedId, first, now), feedId, second, now);
  }

  /** `handle`: the response status and the namespace afterwards. `body` is the parsed JSON
      body, `None` for a body that is not JSON or is `null` (parsing it or reading its
      recipients throws); a body that is not an object reads as a payload with every
      field absent. `parseTime` and `keyTime` are the two `Date.now()`
      readings (the record's fallback date and the key); `parsedDate` is the parse of the
      body's date string. */
  method HandleInbound(store: KvStore, body: Option<Payload>, parseTime: int, keyTime: nat, parsedDate: Timestamp)
    returns (status: nat)
    modifies store
    ensures body.None? ==>
      status == 500 && store.entries == old(store.entries) && store.log == old(store.log)
    ensures body.Some? && ExtractFeedId(RecipientOf(body.value)).None? ==>
      status == 400 && store.entries == old(store.entries) && store.log == old(store.log)
    ensures body.Some? && ExtractFeedId(RecipientOf(body.value)).Some? ==>
      var feedId := ExtractFeedId(RecipientOf(body.value)).value;
      if ConfigAt(old(store.entries), ConfigKey(feedId)).None? then
        && status == 404
        && store.entries == old(store.entries)
        && store.log == old(store.log) + [Read(ConfigKey(feedId))]
      else
        && status == 200
        && store.entries == Ingest(old(store.entries), feedId, Normalize(body.value, parseTime, parsedDate), keyTime)
        && store.log == old(store.log) + [Read(ConfigKey(feedId))] + DeliveryAccesses(feedId, keyTime)
  {
    if body.None? {
      return 500;
    }
    var payload := body.value;
    var feedId := ExtractFeedId(RecipientOf(payload));
    if feedId.None? {
      return 400;
    }
    var id := feedId.value;
    var config := store.GetConfig(ConfigKey(id));
    if config.None? {
      return 404;
    }
    var parsed := ParseForwardEmailPayload(body, parseTime, parsedDate);
    assert parsed.value == Normalize(payload, parseTime, parsedDate);
    Deliver(store, id, parsed.value, keyTime);
    status := 200;
  }

  /** The calls a successful delivery makes after reading the configuration. */
  function DeliveryAccesses(feedId: string, now: nat): seq<Access> {
    [Write(EmailKey(feedId, now)), Read(MetadataKey(feedId)), Write(MetadataKey(feedId))]
  }

  /** The writes of a successful delivery: the email, then the index with its entry in front. */
  method Deliver(store: KvStore, feedId: string, email: EmailData, now: nat)
    modifies store
    ensures store.entries == Ingest(old(store.entries), feedId, email, now)
    ensures store.log == old(store.log) + DeliveryAccesses(feedId, now)
  {
    var emailKey := EmailKey(feedId, now);
    store.Put(emailKey, EmailValue(email));
    var metadata := store.GetMetadata(MetadataKey(feedId));
    var index := if metadata.Some? then metadata.value.emails else [];
    assert index == IndexOf(store.entries, feedId);
    store.Put(MetadataKey(feedId), MetadataValue(FeedMetadata([EntryOf(emailKey, email)] + index)));
  }
}

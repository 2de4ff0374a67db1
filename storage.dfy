/** The key-value namespace `EMAIL_STORAGE` and the keys the service stores under. */
module Storage {
  import opened Wrappers
  import opened Text
  import opened Types

  /** A stored JSON value; each key holds one kind of record. */
  datatype Value =
    | ConfigValue(config: FeedConfig)
    | MetadataValue(metadata: FeedMetadata)
    | EmailValue(email: EmailData)
    | FeedListValue(list: FeedList)

  /** One call into the namespace, in the order the handlers make them. */
  datatype Access = Read(key: string) | Write(key: string) | Remove(key: string)

  // ---------------------------------------------------------------------------
  // Keys

  function ConfigKey(feedId: string): string { "feed:" + feedId + ":config" }

  function MetadataKey(feedId: string): string { "feed:" + feedId + ":metadata" }

  /** `feed:<id>:<Date.now()>`. */
  function EmailKey(feedId: string, now: nat): (k: string)
    ensures var p := "feed:" + feedId + ":";
      && |k| > |p| && k[..|p|] == p
      && forall i :: |p| <= i < |k| ==> IsDigit(k[i])
  {
    "feed:" + feedId + ":" + NatToDecimal(now)
  }

  const FeedListKey: string := "feeds:list"

  /** `key.split(':')[1]`: the feed id the email view reads back out of an email key. */
  function FeedIdOfKey(key: string): (id: Option<string>)
    ensures id.Some? ==> ':' !in id.value
  {
    var parts := Split(key, ':');
    if |parts| >= 2 then Some(parts[1]) else None
  }

  /** An email key never collides with its feed's configuration, its index or the feed list. */
  lemma EmailKeyDistinct(feedId: string, now: nat)
    ensures EmailKey(feedId, now) != ConfigKey(feedId)
    ensures EmailKey(feedId, now) != MetadataKey(feedId)
    ensures EmailKey(feedId, now) != FeedListKey
  {
    var p := "feed:" + feedId + ":";
    var d := NatToDecimal(now);
    assert EmailKey(feedId, now)[|p|] == d[0];
    assert ConfigKey(feedId)[|p|] == 'c';
    assert MetadataKey(feedId)[|p|] == 'm';
    assert EmailKey(feedId, now)[4] == ':' != FeedListKey[4];
  }

  /** Distinct clock readings give distinct email keys. */
  lemma EmailKeyInjective(feedId: string, t1: nat, t2: nat)
    requires t1 != t2
    ensures EmailKey(feedId, t1) != EmailKey(feedId, t2)
  {
    var p := "feed:" + feedId + ":";
    assert EmailKey(feedId, t1)[|p|..] == NatToDecimal(t1);
    assert EmailKey(feedId, t2)[|p|..] == NatToDecimal(t2);
    ParseNatToDecimal(t1);
    ParseNatToDecimal(t2);
  }

  /** The configuration and the index of a feed live under distinct keys, apart from
      the feed list and from every other feed's keys. */
  lemma FeedKeysDistinct(feedId: string, other: string)
    ensures ConfigKey(feedId) != MetadataKey(feedId)
    ensures ConfigKey(feedId) != FeedListKey && MetadataKey(feedId) != FeedListKey
    ensures ':' !in feedId && ':' !in other && feedId != other ==>
      ConfigKey(feedId) != ConfigKey(other) && MetadataKey(feedId) != MetadataKey(other)
  {
    var p := "feed:" + feedId + ":";
    assert ConfigKey(feedId)[|p|] == 'c' && MetadataKey(feedId)[|p|] == 'm';
    assert ConfigKey(feedId)[4] == ':' && MetadataKey(feedId)[4] == ':';
    if ':' !in feedId && ':' !in other && feedId != other {
      FeedIdOfFeedKeys(feedId);
      FeedIdOfFeedKeys(other);
    }
  }

  /** A key `feed:<id>:<rest>` splits back to its id. */
  lemma KeyFeedId(feedId: string, rest: string)
    requires ':' !in feedId
    ensures FeedIdOfKey("feed:" + feedId + ":" + rest) == Some(feedId)
  {
    assert "feed:" + feedId + ":" + rest == "feed" + [':'] + (feedId + [':'] + rest);
    SplitAfterPrefix("feed", ':', feedId + [':'] + rest);
    SplitAfterPrefix(feedId, ':', rest);
  }

  lemma FeedIdOfFeedKeys(feedId: string)
    requires ':' !in feedId
    ensures FeedIdOfKey(ConfigKey(feedId)) == Some(feedId)
    ensures FeedIdOfKey(MetadataKey(feedId)) == Some(feedId)
  {
    assert ConfigKey(feedId) == "feed:" + feedId + ":" + "config";
    assert MetadataKey(feedId) == "feed:" + feedId + ":" + "metadata";
    KeyFeedId(feedId, "config");
    KeyFeedId(feedId, "metadata");
  }

  /** The email view recovers the feed id of every email key. */
  lemma FeedIdOfEmailKey(feedId: string, now: nat)
    requires ':' !in feedId
    ensures FeedIdOfKey(EmailKey(feedId, now)) == Some(feedId)
  {
    KeyFeedId(feedId, NatToDecimal(now));
  }

  // ---------------------------------------------------------------------------
  // Typed reads: `get(key, 'json')`, with a key holding another kind of record
  // read as absent

  function ConfigAt(entries: map<string, Value>, key: string): Option<FeedConfig> {
    if key in entries && entries[key].ConfigValue? then Some(entries[key].config) else None
  }

  function MetadataAt(entries: map<string, Value>, key: string): Option<FeedMetadata> {
    if key in entries && entries[key].MetadataValue? then Some(entries[key].metadata) else None
  }

  function EmailAt(entries: map<string, Value>, key: string): Option<EmailData> {
    if key in entries && entries[key].EmailValue? then Some(entries[key].email) else None
  }

  function FeedListAt(entries: map<string, Value>, key: string): Option<FeedList> {
    if key in entries && entries[key].FeedListValue? then Some(entries[key].list) else None
  }

  /** A feed's index, `{ emails: [] }` when absent. */
  function IndexOf(entries: map<string, Value>, feedId: string): (index: seq<EmailMetadata>)
    ensures MetadataAt(entries, MetadataKey(feedId)).None? ==> index == []
    ensures MetadataAt(entries, MetadataKey(feedId)).Some? ==>
      index == MetadataAt(entries, MetadataKey(feedId)).value.emails
  {
    match MetadataAt(entries, MetadataKey(feedId))
    case Some(m) => m.emails
    case None => []
  }

  /** The feed list, `{ feeds: [] }` when absent. */
  function FeedsOf(entries: map<string, Value>): (feeds: seq<FeedListEntry>)
    ensures FeedListAt(entries, FeedListKey).None? ==> feeds == []
    ensures FeedListAt(entries, FeedListKey).Some? ==> feeds == FeedListAt(entries, FeedListKey).value.feeds
  {
    match FeedListAt(entries, FeedListKey)
    case Some(l) => l.feeds
    case None => []
  }

  /** The namespace: a map from keys to records, and the calls made on it so far. */
  class KvStore {
    var entries: map<string, Value>
    ghost var log: seq<Access>

    constructor (initial: map<string, Value>)
      ensures entries == initial && log == []
    {
      entries := initial;
      log := [];
    }

    method GetConfig(key: string) returns (c: Option<FeedConfig>)
      modifies this`log
      ensures c == ConfigAt(entries, key)
      ensures log == old(log) + [Read(key)]
    {
      c := ConfigAt(entries, key);
      log := log + [Read(key)];
    }

    method GetMetadata(key: string) returns (m: Option<FeedMetadata>)
      modifies this`log
      ensures m == MetadataAt(entries, key)
      ensures log == old(log) + [Read(key)]
    {
      m := MetadataAt(entries, key);
      log := log + [Read(key)];
    }

    method GetEmail(key: string) returns (e: Option<EmailData>)
      modifies this`log
      ensures e == EmailAt(entries, key)
      ensures log == old(log) + [Read(key)]
    {
      e := EmailAt(entries, key);
      log := log + [Read(key)];
    }

    method GetFeedList(key: string) returns (l: Option<FeedList>)
      modifies this`log
      ensures l == FeedListAt(entries, key)
      ensures log == old(log) + [Read(key)]
    {
      l := FeedListAt(entries, key);
      log := log + [Read(key)];
    }

    method Put(key: string, value: Value)
      modifies this
      ensures entries == old(entries)[key := value]
      ensures log == old(log) + [Write(key)]
    {
      entries := entries[key := value];
      log := log + [Write(key)];
    }

    method Delete(key: string)
      modifies this
      ensures entries == old(entries) - {key}
      ensures log == old(log) + [Remove(key)]
    {
      entries := entries - {key};
      log := log + [Remove(key)];
    }
  }
}

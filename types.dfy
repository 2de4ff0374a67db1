/** The records the service stores and passes around. */
module Types {
  import opened Wrappers
  import opened Text

  /** A JavaScript millisecond timestamp: `Date.now()`, or `new Date(date).getTime()`,
      which is NaN for a date it cannot parse. */
  datatype Timestamp = At(ms: int) | NotANumber

  /** A timestamp inside a template string. Records are read back from JSON, where
      `JSON.stringify` has turned NaN into `null`. */
  function TimestampText(t: Timestamp): (s: string)
    ensures |s| > 0
    ensures t.NotANumber? <==> s == "null"
    ensures t.At? ==> forall k :: 0 <= k < |s| ==> IsDigit(s[k]) || (k == 0 && s[k] == '-')
  {
    match t
    case At(ms) =>
      var s := IntToDecimal(ms);
      assert s[0] == '-' || IsDigit(s[0]);
      assert s[0] != "null"[0];
      s
    case NotANumber => "null"
  }

  /** A normalised email, as stored under `feed:<id>:<timestamp>`. */
  datatype EmailData = EmailData(
    subject: string,
    from: string,
    content: string,
    receivedAt: Timestamp,
    headers: map<string, string>)

  /** One entry of a feed's index: a pointer to a stored email. */
  datatype EmailMetadata = EmailMetadata(key: string, subject: string, receivedAt: Timestamp)

  /** The index stored under `feed:<id>:metadata`, newest first. */
  datatype FeedMetadata = FeedMetadata(emails: seq<EmailMetadata>)

  /** The configuration stored under `feed:<id>:config`. */
  datatype FeedConfig = FeedConfig(
    title: string,
    description: Option<string>,
    language: string,
    siteUrl: string,
    feedUrl: string,
    createdAt: int,
    updatedAt: Option<int>,
    author: Option<string>)

  datatype FeedListEntry = FeedListEntry(id: string, title: string)

  /** The list of all feeds stored under `feeds:list`. */
  datatype FeedList = FeedList(feeds: seq<FeedListEntry>)

  /** JavaScript's `a || b` where `a` is an optional string: `undefined` and `''` are falsy. */
  function Or(a: Option<string>, b: string): (r: string)
    ensures a.Some? && a.value != "" ==> r == a.value
    ensures (a.None? || a.value == "") ==> r == b
  {
    if a.Some? && a.value != "" then a.value else b
  }
}

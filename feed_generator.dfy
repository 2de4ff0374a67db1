/** `generateRssFeed`: the feed options and one item per stored email, as handed to the
    `feed` library. The library's XML rendering (`rss2()`) is represented by the document
    value it renders. */
module FeedGenerator {
  import opened Wrappers
  import opened Text
  import opened Types
  import Base64
  import Utf8

  datatype Author = Author(name: string, email: string)

  /** The options object passed to `new Feed(...)`. */
  datatype FeedOptions = FeedOptions(
    title: string,
    description: string,
    id: string,
    link: string,
    language: string,
    updated: int,
    generator: string,
    copyright: string,
    rssLink: string,
    author: Option<Author>)

  /** The object passed to `feed.addItem(...)`. */
  datatype Item = Item(
    title: string,
    id: string,
    link: string,
    description: string,
    content: string,
    authors: seq<string>,
    date: int)

  datatype RssDocument = RssDocument(options: FeedOptions, items: seq<Item>)

  /** The `feed` library's feed object: fixed options and the items added so far. */
  class Feed {
    const options: FeedOptions
    var items: seq<Item>

    constructor (options: FeedOptions)
      ensures this.options == options && items == []
    {
      this.options := options;
      items := [];
    }

    method AddItem(item: Item)
      modifies this`items
      ensures items == old(items) + [item]
    {
      items := items + [item];
    }

    /** What `rss2()` renders. */
    function Document(): RssDocument
      reads this
    {
      RssDocument(options, items)
    }
  }

  const Generator: string := "Email-to-RSS"

  const InvalidUrl: string := "Invalid URL"

  /** The feed options for a configuration. `updated` is `new Date()` in milliseconds, `year`
      its `getFullYear()`, and `hostnameOf` stands for `new URL(url).hostname`, `None` where
      the constructor throws. Building them fails only when an author is set and the site
      URL does not parse. */
  function OptionsOf(config: FeedConfig, updated: int, year: int, hostnameOf: string -> Option<string>)
    : (r: Result<FeedOptions, string>)
    ensures r.Failure? <==> Or(config.author, "") != "" && hostnameOf(config.siteUrl).None?
    ensures r.Success? ==> (r.value.author.Some? <==> Or(config.author, "") != "")
    ensures r.Success? ==> r.value.id == r.value.rssLink == config.feedUrl && r.value.link == config.siteUrl
    ensures r.Success? ==>
      && r.value.title == config.title
      && r.value.description == Or(config.description, "")
      && r.value.language == config.language
      && r.value.updated == updated
      && r.value.generator == Generator
      && r.value.copyright == "Copyright \U{A9} " + IntToDecimal(year) + " " + config.title
    ensures r.Success? && Or(config.author, "") != "" ==>
      r.value.author == Some(Author(config.author.value, "noreply@" + hostnameOf(config.siteUrl).value))
  {
    var author :=
      if Or(config.author, "") == "" then Success(None)
      else match hostnameOf(config.siteUrl)
        case None => Failure(InvalidUrl)
        case Some(host) => Success(Some(Author(config.author.value, "noreply@" + host)));
    if author.Failure? then Failure(author.error)
    else Success(FeedOptions(
      config.title,
      Or(config.description, ""),
      config.feedUrl,
      config.siteUrl,
      config.language,
      updated,
      Generator,
      "Copyright \U{A9} " + IntToDecimal(year) + " " + config.title,
      config.feedUrl,
      author.value))
  }

  /** `${receivedAt}-${base64(utf8(subject)).substring(0, 10)}`. */
  function ItemId(receivedAt: Timestamp, subject: string): (id: string)
    ensures |TimestampText(receivedAt)| < |id| <= |TimestampText(receivedAt)| + 1 + IdSuffixLength
    ensures id[..|TimestampText(receivedAt)| + 1] == TimestampText(receivedAt) + "-"
  {
    TimestampText(receivedAt) + "-" + Take(Base64.Encode(Utf8.Encode(subject)), IdSuffixLength)
  }

  /** How many base64 characters of the subject an item id keeps. */
  const IdSuffixLength: nat := 10

  /** The id's suffix is as long as the subject's padded base64, cut at ten characters. */
  lemma ItemIdLength(receivedAt: Timestamp, subject: string)
    ensures var n := 4 * ((|Utf8.Encode(subject)| + 2) / 3);
      |ItemId(receivedAt, subject)| == |TimestampText(receivedAt)| + 1 + (if n <= IdSuffixLength then n else IdSuffixLength)
  {
    Base64.EncodeLength(Utf8.Encode(subject));
  }

  /** An empty subject leaves the id as the time and a dash. */
  lemma ItemIdEmptySubject(receivedAt: Timestamp)
    ensures ItemId(receivedAt, "") == TimestampText(receivedAt) + "-"
  {
    ItemIdLength(receivedAt, "");
    assert |Utf8.Encode("")| == 0;
  }

  /** `new Date(receivedAt)` on a value read back from JSON: a NaN date was stored as
      `null`, which is the epoch. */
  function ItemDate(receivedAt: Timestamp): (ms: int)
    ensures receivedAt.At? ==> ms == receivedAt.ms
    ensures receivedAt.NotANumber? ==> ms == 0
  {
    match receivedAt
    case At(ms) => ms
    case NotANumber => 0
  }

  function ItemOf(email: EmailData, baseUrl: string): (item: Item)
    ensures item.id == ItemId(email.receivedAt, email.subject)
    ensures item.link == baseUrl + "/emails/" + item.id
    ensures item.title == email.subject && item.authors == [email.from]
    ensures item.description == email.content && item.content == email.content
    ensures item.date == ItemDate(email.receivedAt)
  {
    var id := ItemId(email.receivedAt, email.subject);
    Item(email.subject, id, baseUrl + "/emails/" + id, email.content, email.content,
         [email.from], ItemDate(email.receivedAt))
  }

  function ItemsOf(emails: seq<EmailData>, baseUrl: string): (items: seq<Item>)
    ensures |items| == |emails|
    ensures forall i :: 0 <= i < |emails| ==> items[i] == ItemOf(emails[i], baseUrl)
  {
    seq(|emails|, i requires 0 <= i < |emails| => ItemOf(emails[i], baseUrl))
  }

  /** `generateRssFeed`: one item per email, in the order given, under the options of
      the configuration; fails where building the options throws. */
  method GenerateRssFeed(config: FeedConfig, emails: seq<EmailData>, baseUrl: string,
                         updated: int, year: int, hostnameOf: string -> Option<string>)
    returns (r: Result<RssDocument, string>)
    ensures OptionsOf(config, updated, year, hostnameOf).Failure? ==>
      r == Failure(InvalidUrl)
    ensures OptionsOf(config, updated, year, hostnameOf).Success? ==>
      r == Success(RssDocument(OptionsOf(config, updated, year, hostnameOf).value, ItemsOf(emails, baseUrl)))
  {
    var options := OptionsOf(config, updated, year, hostnameOf);
    if options.Failure? {
      return Failure(options.error);
    }
    var feed := new Feed(options.value);
    AddItems(feed, emails, baseUrl);
    return Success(feed.Document());
  }

  /** The loop of `generateRssFeed`: one item per email, in order. */
  method AddItems(feed: Feed, emails: seq<EmailData>, baseUrl: string)
    requires feed.items == []
    modifies feed`items
    ensures feed.items == ItemsOf(emails, baseUrl)
  {
    var i := 0;
    while i < |emails|
      invariant 0 <= i <= |emails|
      invariant feed.items == ItemsOf(emails[..i], baseUrl)
    {
      ItemsOfSnoc(emails, i, baseUrl);
      feed.AddItem(ItemOf(emails[i], baseUrl));
      i := i + 1;
    }
    assert emails[..i] == emails;
  }

  lemma ItemsOfSnoc(emails: seq<EmailData>, i: nat, baseUrl: string)
    requires i < |emails|
    ensures ItemsOf(emails[..i + 1], baseUrl) == ItemsOf(emails[..i], baseUrl) + [ItemOf(emails[i], baseUrl)]
  {
    var a := ItemsOf(emails[..i + 1], baseUrl);
    var b := ItemsOf(emails[..i], baseUrl) + [ItemOf(emails[i], baseUrl)];
    assert |a| == |b|;
    forall j | 0 <= j < |a| ensures a[j] == b[j] {
      assert a[j] == ItemOf(emails[j], baseUrl) by { assert emails[..i + 1][j] == emails[j]; }
      if j < i {
        assert b[j] == ItemsOf(emails[..i], baseUrl)[j];
        assert emails[..i][j] == emails[j];
      }
    }
  }

  // ---------------------------------------------------------------------------
  // Item ids

  /** The part of an item id before the first `-` is the decimal reception time, for
      every subject; so the time can be read back from the id. */
  lemma ItemIdTime(ms: nat, subject: string)
    ensures Split(ItemId(At(ms), subject), '-')[0] == NatToDecimal(ms)
    ensures ParseDecimal(Split(ItemId(At(ms), subject), '-')[0]) == ms
  {
    var d := NatToDecimal(ms);
    var suffix := Take(Base64.Encode(Utf8.Encode(subject)), IdSuffixLength);
    assert '-' !in d by {
      forall i | 0 <= i < |d| ensures d[i] != '-' {
        assert IsDigit(d[i]);
      }
    }
    assert ItemId(At(ms), subject) == d + ['-'] + suffix;
    SplitAfterPrefix(d, '-', suffix);
    ParseNatToDecimal(ms);
  }

  /** Emails received at different times never share an item id. */
  lemma ItemIdDistinctTimes(ms1: nat, subject1: string, ms2: nat, subject2: string)
    requires ms1 != ms2
    ensures ItemId(At(ms1), subject1) != ItemId(At(ms2), subject2)
  {
    ItemIdTime(ms1, subject1);
    ItemIdTime(ms2, subject2);
  }

  /** Only ten base64 characters of the subject are kept: subjects whose UTF-8 encodings
      share their first eight bytes give the same id at the same time. */
  lemma ItemIdSharedPrefix(t: Timestamp, subject1: string, subject2: string)
    requires |Utf8.Encode(subject1)| >= 8 && |Utf8.Encode(subject2)| >= 8
    requires Utf8.Encode(subject1)[..8] == Utf8.Encode(subject2)[..8]
    ensures ItemId(t, subject1) == ItemId(t, subject2)
  {
    var e1, e2 := Base64.Encode(Utf8.Encode(subject1)), Base64.Encode(Utf8.Encode(subject2));
    Base64.EncodePrefix(Utf8.Encode(subject1), Utf8.Encode(subject2), 2);
    assert Take(e1, IdSuffixLength) == e1[..10] == e2[..10] == Take(e2, IdSuffixLength);
  }

  /** Subjects that start with the same eight ASCII characters, such as two issues
      `Weekly digest #1` and `Weekly digest #2`, collide when received at the same time. */
  lemma ItemIdAsciiPrefix(t: Timestamp, prefix: string, rest1: string, rest2: string)
    requires Utf8.IsAscii(prefix) && |prefix| >= 8
    ensures ItemId(t, prefix + rest1) == ItemId(t, prefix + rest2)
  {
    Utf8.EncodeAscii(prefix);
    Utf8.EncodeAppend(prefix, rest1);
    Utf8.EncodeAppend(prefix, rest2);
    var e := Utf8.Encode(prefix);
    assert (e + Utf8.Encode(rest1))[..8] == e[..8] == (e + Utf8.Encode(rest2))[..8];
    ItemIdSharedPrefix(t, prefix + rest1, prefix + rest2);
  }
}

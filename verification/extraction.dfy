/**
 Field extraction from one rendered tweet card (`extract_tweet_data`).

 The browser is replaced by an oracle: each of the seven element lookups either
 finds its element and yields its text, finds nothing (`NoSuchElementException`),
 or hits a card that went stale (`StaleElementReferenceException`). The lookups
 run one after the other, so the first one that does not find its element
 decides the outcome and the later ones never run.
 */
module Extraction {

  /** Outcome of one element lookup on a card. */
  datatype Lookup = Found(text: string) | Absent | Stale

  /** A rendered card, seen through the seven lookups the extractor performs. */
  datatype Card = Card(
    user: Lookup,
    handle: Lookup,
    postDate: Lookup,
    content: Lookup,
    replies: Lookup,
    retweets: Lookup,
    likes: Lookup)

  /** What extracting one card gives: a full record, `None`, or a stale-reference exception. */
  datatype Extracted = Tweet(fields: seq<string>) | NoTweet | StaleCard

  /** The card's lookups in the order the extractor performs them. */
  function Lookups(c: Card): (ls: seq<Lookup>)
    ensures |ls| == 7
  {
    [c.user, c.handle, c.postDate, c.content, c.replies, c.retweets, c.likes]
  }

  /** Index of the first lookup that did not find its element, or `|ls|` when all did. */
  function FirstMiss(ls: seq<Lookup>): (k: nat)
    ensures k <= |ls|
    ensures forall i :: 0 <= i < k ==> ls[i].Found?
    ensures k < |ls| ==> !ls[k].Found?
  {
    if ls == [] || !ls[0].Found? then 0 else 1 + FirstMiss(ls[1..])
  }

  /**
   Runs the lookups in order and stops at the first one that fails: an absent
   element turns the whole record into `NoTweet`, a stale one into `StaleCard`.
   */
  function ExtractFields(ls: seq<Lookup>): (r: Extracted)
    ensures r.Tweet? <==> FirstMiss(ls) == |ls|
    ensures r.Tweet? ==> |r.fields| == |ls| && forall i :: 0 <= i < |ls| ==> r.fields[i] == ls[i].text
    ensures r.NoTweet? <==> FirstMiss(ls) < |ls| && ls[FirstMiss(ls)] == Absent
    ensures r.StaleCard? <==> FirstMiss(ls) < |ls| && ls[FirstMiss(ls)] == Stale
  {
    if ls == [] then Tweet([])
    else match ls[0]
      case Absent => NoTweet
      case Stale => StaleCard
      case Found(s) =>
        match ExtractFields(ls[1..])
        case Tweet(rest) => Tweet([s] + rest)
        case NoTweet => NoTweet
        case StaleCard => StaleCard
  }

  /** True when every one of the card's seven lookups finds its element. */
  predicate Complete(c: Card)
  {
    && c.user.Found? && c.handle.Found? && c.postDate.Found? && c.content.Found?
    && c.replies.Found? && c.retweets.Found? && c.likes.Found?
  }

  /** `extract_tweet_data`: the seven texts in fixed order, or nothing at all. */
  function ExtractTweet(c: Card): (r: Extracted)
    ensures r.Tweet? <==> Complete(c)
    ensures r.Tweet? ==> r.fields == [c.user.text, c.handle.text, c.postDate.text, c.content.text,
                                      c.replies.text, c.retweets.text, c.likes.text]
    ensures r.NoTweet? <==> FirstMiss(Lookups(c)) < 7 && Lookups(c)[FirstMiss(Lookups(c))] == Absent
    ensures r.StaleCard? <==> FirstMiss(Lookups(c)) < 7 && Lookups(c)[FirstMiss(Lookups(c))] == Stale
  {
    var ls := Lookups(c);
    var r := ExtractFields(ls);
    assert ls[0] == c.user && ls[1] == c.handle && ls[2] == c.postDate && ls[3] == c.content;
    assert ls[4] == c.replies && ls[5] == c.retweets && ls[6] == c.likes;
    r
  }

  /** A card with one lookup not found never yields a record, whatever the others hold. */
  lemma NoPartialRecord(c: Card, k: nat)
    requires k < 7 && !Lookups(c)[k].Found?
    ensures !ExtractTweet(c).Tweet?
  {
  }

  /**
   A card whose only failing lookup is an absent element gives `None`: it is
   discarded whole, not raised as a stale card.
   */
  lemma {:induction false} SingleAbsentGivesNone(c: Card, k: nat)
    requires k < 7 && Lookups(c)[k] == Absent
    requires forall i :: 0 <= i < 7 && i != k ==> Lookups(c)[i].Found?
    ensures ExtractTweet(c) == NoTweet
  {
    var ls := Lookups(c);
    assert FirstMiss(ls) == k;
  }
}

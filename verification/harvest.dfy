/**
 The harvesting loop `scrape_tweets`, with the browser replaced by a finite
 feed: for each round, the cards rendered at that moment and the scroll offset
 read after scrolling. Each round saves the records of its cards in card
 order, then updates the stall counter; the loop ends when the counter reaches
 the limit.
 */
module Harvest {

  import opened Wrappers
  import opened Extraction
  import opened Storage
  import opened Scroll

  /** What the browser shows in one round: the card snapshot, then the offset after scrolling. */
  datatype Round = Round(cards: seq<Card>, offset: int)

  /** The offsets the feed reports, one per round. */
  function Offsets(feed: seq<Round>): (r: seq<int>)
    ensures |r| == |feed|
    ensures forall i :: 0 <= i < |feed| ==> r[i] == feed[i].offset
  {
    seq(|feed|, i requires 0 <= i < |feed| => feed[i].offset)
  }

  /** The rows one card adds: its record when extraction succeeds; nothing when it is incomplete or stale. */
  function CardRows(c: Card): (r: seq<Row>)
    ensures |r| <= 1
    ensures r != [] <==> Complete(c)
    ensures r != [] ==> r[0] == ExtractTweet(c).fields
  {
    match ExtractTweet(c)
    case Tweet(fields) => [fields]
    case NoTweet => []
    case StaleCard => []
  }

  /** The rows a card snapshot adds, card by card in enumeration order. */
  function Records(cards: seq<Card>): (r: seq<Row>)
    ensures |r| <= |cards|
    ensures forall i :: 0 <= i < |r| ==> |r[i]| == 7
  {
    if cards == [] then [] else CardRows(cards[0]) + Records(cards[1..])
  }

  /** Records of consecutive snapshots follow one another. */
  lemma {:induction false} RecordsAppend(a: seq<Card>, b: seq<Card>)
    ensures Records(a + b) == Records(a) + Records(b)
    decreases |a|
  {
    if a == [] {
      assert a + b == b;
    } else {
      assert (a + b)[0] == a[0];
      assert (a + b)[1..] == a[1..] + b;
      RecordsAppend(a[1..], b);
    }
  }

  /** The rows of a single card are that card's own rows. */
  lemma RecordsSingle(c: Card)
    ensures Records([c]) == CardRows(c)
  {
    assert [c][1..] == [];
  }

  /** A stale or incomplete card adds nothing, wherever it sits among the cards. */
  lemma SkippedCardAddsNothing(a: seq<Card>, c: Card, b: seq<Card>)
    requires !Complete(c)
    ensures Records(a + [c] + b) == Records(a + b)
  {
    RecordsSingle(c);
    RecordsAppend(a, [c]);
    RecordsAppend(a + [c], b);
    RecordsAppend(a, b);
  }

  /** When every card is complete, row `i` is exactly card `i`'s record. */
  lemma {:induction false} RecordsInCardOrder(cards: seq<Card>)
    requires forall i :: 0 <= i < |cards| ==> Complete(cards[i])
    ensures |Records(cards)| == |cards|
    ensures forall i :: 0 <= i < |cards| ==> Records(cards)[i] == ExtractTweet(cards[i]).fields
    decreases |cards|
  {
    if cards != [] {
      RecordsInCardOrder(cards[1..]);
      assert Records(cards) == [ExtractTweet(cards[0]).fields] + Records(cards[1..]);
    }
  }

  /** The rows the given rounds add, round by round. */
  function Harvested(rounds: seq<Round>): (r: seq<Row>)
    ensures forall i :: 0 <= i < |r| ==> |r[i]| == 7
  {
    if rounds == [] then [] else Harvested(rounds[..|rounds| - 1]) + Records(rounds[|rounds| - 1].cards)
  }

  /** One more card adds its own rows after those of the cards before it. */
  lemma RecordsSnoc(cards: seq<Card>, i: nat)
    requires i < |cards|
    ensures Records(cards[..i + 1]) == Records(cards[..i]) + CardRows(cards[i])
  {
    RecordsAppend(cards[..i], [cards[i]]);
    assert cards[..i + 1] == cards[..i] + [cards[i]];
    RecordsSingle(cards[i]);
  }

  /** Saving one card's rows is one `save_to_csv` call for a record, and nothing otherwise. */
  lemma SaveCardRows(f: File, c: Card)
    ensures SaveAll(f, CardRows(c)) == if ExtractTweet(c).Tweet? then Save(f, ExtractTweet(c).fields) else f
  {
    if ExtractTweet(c).Tweet? {
      assert CardRows(c) == [ExtractTweet(c).fields];
    }
  }

  /** One more round adds its snapshot's records after those of the earlier rounds. */
  lemma HarvestedSnoc(feed: seq<Round>, n: nat)
    requires n < |feed|
    ensures Harvested(feed[..n + 1]) == Harvested(feed[..n]) + Records(feed[n].cards)
  {
    assert feed[..n + 1][..n] == feed[..n];
  }

  /** Saving round `n`'s records extends the file saved after the first `n` rounds. */
  lemma FileStep(file: File, feed: seq<Round>, n: nat, saved: File)
    requires n < |feed| && saved == SaveAll(file, Harvested(feed[..n]))
    ensures SaveAll(saved, Records(feed[n].cards)) == SaveAll(file, Harvested(feed[..n + 1]))
  {
    HarvestedSnoc(feed, n);
    SaveAllAppend(file, Harvested(feed[..n]), Records(feed[n].cards));
  }

  /** The per-card loop of one round: saves each card's record, in order, as soon as it is extracted. */
  method SaveCards(file: File, cards: seq<Card>) returns (out: File)
    ensures out == SaveAll(file, Records(cards))
  {
    out := file;
    var i := 0;
    while i < |cards|
      invariant i <= |cards|
      invariant out == SaveAll(file, Records(cards[..i]))
    {
      var c := cards[i];
      RecordsSnoc(cards, i);
      SaveAllAppend(file, Records(cards[..i]), CardRows(c));
      SaveCardRows(out, c);
      var tweet := ExtractTweet(c);
      if tweet.Tweet? {
        out := Save(out, tweet.fields);
      }
      i := i + 1;
    }
    assert cards[..i] == cards;
  }

  /**
   `scrape_tweets` over a finite feed. It runs rounds until the stall counter
   reaches `limit`, or until the feed runs out (`stopped` is then false; the
   real loop would keep waiting for offsets). The rounds run are exactly those
   `StopRound` predicts from the offsets alone, the counter stays between zero
   and the limit, and the file gains the records of those rounds in order.
   */
  method Scrape(file: File, feed: seq<Round>, limit: int) returns (out: File, rounds: nat, attempts: int, stopped: bool)
    ensures rounds <= |feed|
    ensures stopped ==> StopRound(Offsets(feed), limit) == Some(rounds)
    ensures !stopped ==> rounds == |feed| && StopRound(Offsets(feed), limit) == None
    ensures stopped ==> attempts == if limit > 0 then limit else 0
    ensures !stopped ==> 0 <= attempts < limit
    ensures out == SaveAll(file, Harvested(feed[..rounds]))
  {
    var offsets := Offsets(feed);
    var state := Initial;
    rounds := 0;
    out := file;
    assert offsets[..0] == [] && feed[..0] == [];
    while state.attempts < limit && rounds < |feed|
      invariant rounds <= |feed|
      invariant state == After(offsets[..rounds])
      invariant 0 <= state.attempts <= if limit > 0 then limit else 0
      invariant forall m :: 0 <= m < rounds ==> !Reached(offsets, limit, m)
      invariant out == SaveAll(file, Harvested(feed[..rounds]))
      decreases |feed| - rounds
    {
      CounterStep(offsets, limit, rounds);
      var round := feed[rounds];
      ghost var saved := out;
      out := SaveCards(out, round.cards);
      FileStep(file, feed, rounds, saved);
      state := Step(state, round.offset);
      rounds := rounds + 1;
    }
    LoopExit(offsets, limit, rounds);
    attempts := state.attempts;
    stopped := attempts >= limit;
  }

  /**
   A harvest into an empty file that saves at least one record leaves the
   header as row 0 followed by the records in harvest order; one into a file
   that already has rows only appends the records.
   */
  lemma HarvestFileShape(file: File, rounds: seq<Round>)
    ensures file == [] && Harvested(rounds) != [] ==> SaveAll(file, Harvested(rounds)) == [Header] + Harvested(rounds)
    ensures file == [] && Harvested(rounds) == [] ==> SaveAll(file, Harvested(rounds)) == []
    ensures file != [] ==> SaveAll(file, Harvested(rounds)) == file + Harvested(rounds)
  {
    SaveAllClosedForm(file, Harvested(rounds));
  }
}

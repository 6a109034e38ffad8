/**
 The list logic of the scrolling feed: the first quote, merging a loaded batch without
 repeating ids already shown, the guard on preloading, the per-quote "explanation" flags
 and the explanation wording.
 */
module QuoteFeed {

  import opened Optional
  import opened Quotes

  /** The feed's quotes when it is first shown. */
  function InitialFeed(initial: Option<Quote>): (r: seq<Quote>)
    ensures initial.None? ==> r == []
    ensures initial.Some? ==> r == [initial.value]
  {
    match initial
    case Some(q) => [q]
    case None => []
  }

  /** The quotes of `incoming` whose id is not among `prev`, in their order. */
  function NotShown(incoming: seq<Quote>, prev: seq<Quote>): (r: seq<Quote>)
    ensures |r| <= |incoming|
    ensures forall x :: x in r <==> x in incoming && !SomeId(prev, x.id)
  {
    if incoming == [] then []
    else if SomeId(prev, incoming[0].id) then NotShown(incoming[1..], prev)
    else [incoming[0]] + NotShown(incoming[1..], prev)
  }

  /** The update after a batch is loaded: the shown quotes, then the loaded ones whose id is
      not shown yet. Repeats within the batch are not collapsed. */
  function MergeLoaded(prev: seq<Quote>, incoming: seq<Quote>): (r: seq<Quote>)
    ensures |prev| <= |r| <= |prev| + |incoming|
    ensures r[..|prev|] == prev
    ensures forall x :: x in r[|prev|..] <==> x in incoming && !SomeId(prev, x.id)
  {
    var r := prev + NotShown(incoming, prev);
    assert r[|prev|..] == NotShown(incoming, prev);
    r
  }

  /** Filtering a batch filters its parts one after the other, so the kept quotes keep the
      batch's order and its repeats. */
  lemma {:induction false} NotShownAppend(a: seq<Quote>, b: seq<Quote>, prev: seq<Quote>)
    ensures NotShown(a + b, prev) == NotShown(a, prev) + NotShown(b, prev)
  {
    if a == [] {
      assert a + b == b;
    } else {
      assert (a + b)[0] == a[0];
      assert (a + b)[1..] == a[1..] + b;
      NotShownAppend(a[1..], b, prev);
    }
  }

  /** Merging a batch is merging its first part, then appending what its second part
      adds. */
  lemma MergeLoadedAppend(prev: seq<Quote>, a: seq<Quote>, b: seq<Quote>)
    ensures MergeLoaded(prev, a + b) == MergeLoaded(prev, a) + NotShown(b, prev)
  {
    NotShownAppend(a, b, prev);
  }

  /** A single loaded quote is appended exactly when its id is not shown yet. */
  lemma MergeLoadedOne(prev: seq<Quote>, x: Quote)
    ensures MergeLoaded(prev, [x]) == if SomeId(prev, x.id) then prev else prev + [x]
  {
    assert [x][1..] == [];
  }

  /** A batch of quotes already shown contributes nothing. */
  lemma {:induction false} NotShownOfShown(incoming: seq<Quote>, prev: seq<Quote>)
    requires forall i :: 0 <= i < |incoming| ==> SomeId(prev, incoming[i].id)
    ensures NotShown(incoming, prev) == []
  {
    if incoming != [] {
      assert SomeId(prev, incoming[0].id);
      assert forall i :: 0 <= i < |incoming[1..]| ==> incoming[1..][i] == incoming[i + 1];
      NotShownOfShown(incoming[1..], prev);
    }
  }

  /** Loading only quotes already shown changes nothing. */
  lemma MergeShownIsNoOp(prev: seq<Quote>, incoming: seq<Quote>)
    requires forall i :: 0 <= i < |incoming| ==> SomeId(prev, incoming[i].id)
    ensures MergeLoaded(prev, incoming) == prev
  {
    NotShownOfShown(incoming, prev);
  }

  /** The same new quote twice in one batch is shown twice. */
  lemma MergeKeepsRepeatsInBatch(q: Quote)
    ensures MergeLoaded([], [q, q]) == [q, q]
    ensures !DistinctIds(MergeLoaded([], [q, q]))
  {
    assert [q, q][1..] == [q];
  }

  /** With distinct ids in the shown list and in the batch, the merged feed has distinct
      ids. */
  lemma {:induction false} NotShownDistinct(incoming: seq<Quote>, prev: seq<Quote>)
    requires DistinctIds(incoming)
    ensures DistinctIds(NotShown(incoming, prev))
  {
    if incoming != [] {
      NotShownDistinct(incoming[1..], prev);
      var rest := NotShown(incoming[1..], prev);
      forall x | x in rest ensures x.id != incoming[0].id {
        var k :| 0 <= k < |incoming[1..]| && incoming[1..][k] == x;
        assert incoming[k + 1] == x;
      }
    }
  }

  lemma MergeDistinct(prev: seq<Quote>, incoming: seq<Quote>)
    requires DistinctIds(prev) && DistinctIds(incoming)
    ensures DistinctIds(MergeLoaded(prev, incoming))
  {
    var extra := NotShown(incoming, prev);
    NotShownDistinct(incoming, prev);
    var r := MergeLoaded(prev, incoming);
    forall i, j | 0 <= i < j < |r| ensures r[i].id != r[j].id {
      if j >= |prev| && i < |prev| {
        assert r[j] in extra;
        assert r[i] == prev[i];
      } else if i >= |prev| {
        assert r[i] == extra[i - |prev|] && r[j] == extra[j - |prev|];
      }
    }
  }

  /** The update when the parent passes a quote: unchanged if its id is shown, otherwise the
      quote goes in front. */
  function PrependInitial(prev: seq<Quote>, q: Quote): (r: seq<Quote>)
    ensures SomeId(r, q.id)
    ensures SomeId(prev, q.id) ==> r == prev
    ensures !SomeId(prev, q.id) ==> r[0] == q && r[1..] == prev
  {
    if SomeId(prev, q.id) then prev else [q] + prev
  }

  /** Passing the same quote again changes nothing. */
  lemma PrependInitialIdempotent(prev: seq<Quote>, q: Quote)
    ensures PrependInitial(PrependInitial(prev, q), q) == PrependInitial(prev, q)
  {
  }

  /** The mount effect: an empty feed gets the parent's quote, a non-empty one is kept. */
  function FillEmpty(prev: seq<Quote>, initial: Option<Quote>): (r: seq<Quote>)
    ensures prev != [] || initial.None? ==> r == prev
    ensures prev == [] && initial.Some? ==> r == [initial.value]
  {
    if initial.Some? && prev == [] then [initial.value] else prev
  }

  /** Both effects run on a new parent quote; the mount effect adds nothing the update
      effect would not add itself. */
  lemma FillEmptyThenPrepend(prev: seq<Quote>, q: Quote)
    ensures PrependInitial(FillEmpty(prev, Some(q)), q) == PrependInitial(prev, q)
  {
  }

  /** The number of quotes below which the feed preloads more. */
  const PreloadThreshold := 5

  /** The number of quotes a preload asks the loader for. */
  const PreloadCount := 4

  /** The preload guard: few quotes shown, a loader present, no load in flight. */
  predicate ShouldPreload(shown: nat, hasLoader: bool, inFlight: bool) {
    shown < PreloadThreshold && hasLoader && !inFlight
  }

  /** A preload: when the guard holds, the loader (`loadMoreQuotes`, `None` when the parent
      passes none) is asked for `PreloadCount` quotes and the batch is merged in; otherwise
      the feed is left alone. */
  function Preload(feed: seq<Quote>, loader: Option<nat -> seq<Quote>>, inFlight: bool): (r: seq<Quote>)
    ensures !ShouldPreload(|feed|, loader.Some?, inFlight) ==> r == feed
    ensures ShouldPreload(|feed|, loader.Some?, inFlight) ==> r == MergeLoaded(feed, loader.value(PreloadCount))
    ensures |feed| <= |r| && r[..|feed|] == feed
    ensures |feed| >= PreloadThreshold || inFlight || loader.None? ==> r == feed
  {
    if ShouldPreload(|feed|, loader.Some?, inFlight) then MergeLoaded(feed, loader.value(PreloadCount)) else feed
  }

  /** A preload keeps the ids of the feed distinct when the loader's batch has distinct ids. */
  lemma PreloadDistinct(feed: seq<Quote>, loader: Option<nat -> seq<Quote>>, inFlight: bool)
    requires DistinctIds(feed)
    requires loader.Some? ==> DistinctIds(loader.value(PreloadCount))
    ensures DistinctIds(Preload(feed, loader, inFlight))
  {
    if ShouldPreload(|feed|, loader.Some?, inFlight) {
      MergeDistinct(feed, loader.value(PreloadCount));
    }
  }

  // ---------------------------------------------------------------------------------------
  // Explanations

  /** Whether the explanation under a quote is open; a missing key reads as closed. */
  predicate Expanded(flags: map<string, bool>, id: string) {
    id in flags && flags[id]
  }

  /** `toggleExplanation`: negate the flag of `id`, leave every other key as it was. */
  function ToggleExplanation(flags: map<string, bool>, id: string): (r: map<string, bool>)
    ensures id in r && Expanded(r, id) == !Expanded(flags, id)
    ensures forall k :: k != id ==> (k in r <==> k in flags) && (k in flags ==> r[k] == flags[k])
  {
    flags[id := !Expanded(flags, id)]
  }

  /** Toggling twice restores the flag's value. */
  lemma ToggleExplanationTwice(flags: map<string, bool>, id: string)
    ensures Expanded(ToggleExplanation(ToggleExplanation(flags, id), id), id) == Expanded(flags, id)
  {
  }

  /** A quote is treated as a Bible verse when its source is `bible` or one of its tags is. */
  predicate IsBibleQuote(q: Quote) {
    q.source == Some("bible") || "bible" in q.tags
  }

  /** The wordings around the author's name; their openings already tell them apart. */
  const BibleOpening := "This verse from "
  const BibleClosing := " encourages us to reflect on its deeper meaning. Bible verses often contain wisdom that applies to our daily lives, offering guidance, comfort, and inspiration."
  const GeneralOpening := "This quote by "
  const GeneralClosing := " invites us to consider its wisdom. Great quotes often contain insights that can help us navigate life's challenges and find meaning in our experiences."

  function BibleExplanation(author: string): string {
    BibleOpening + (author + BibleClosing)
  }

  function GeneralExplanation(author: string): string {
    GeneralOpening + (author + GeneralClosing)
  }

  /** A character inside the first part of a concatenation is that part's. */
  lemma FromOpening(opening: string, rest: string, i: nat)
    requires i < |opening|
    ensures (opening + rest)[i] == opening[i]
  {
  }

  /** The two wordings never coincide, whatever the authors. */
  lemma WordingsDiffer(a: string, b: string)
    ensures BibleExplanation(a) != GeneralExplanation(b)
  {
    FromOpening(BibleOpening, a + BibleClosing, 5);
    FromOpening(GeneralOpening, b + GeneralClosing, 5);
    assert BibleOpening[5] != GeneralOpening[5];
  }

  /** `getExplanation`: the Bible wording exactly for Bible quotes, the general one otherwise. */
  function GetExplanation(q: Quote): (r: string)
    ensures var opening := if IsBibleQuote(q) then BibleOpening else GeneralOpening;
            && |opening| + |q.author| <= |r|
            && r[..|opening|] == opening
            && r[|opening|..|opening| + |q.author|] == q.author
  {
    if IsBibleQuote(q) then BibleExplanation(q.author) else GeneralExplanation(q.author)
  }

  lemma BibleQuoteGetsNoGeneralWording(q: Quote)
    requires IsBibleQuote(q)
    ensures GetExplanation(q) != GeneralExplanation(q.author)
  {
    WordingsDiffer(q.author, q.author);
  }

  lemma OtherQuoteGetsNoBibleWording(q: Quote)
    requires !IsBibleQuote(q)
    ensures GetExplanation(q) != BibleExplanation(q.author)
  {
    WordingsDiffer(q.author, q.author);
  }

  /** The Bible wording is given exactly for Bible quotes, the general one exactly for the
      others. */
  lemma GetExplanationWording(q: Quote)
    ensures GetExplanation(q) == BibleExplanation(q.author) <==> IsBibleQuote(q)
    ensures GetExplanation(q) == GeneralExplanation(q.author) <==> !IsBibleQuote(q)
  {
    if IsBibleQuote(q) {
      BibleQuoteGetsNoGeneralWording(q);
    } else {
      OtherQuoteGetsNoBibleWording(q);
    }
  }
}

/**
 The quote record every part of the app passes around, the lists of quotes the app keeps
 (recent quotes, favorites, the feed), and the id-based list operations they share.
 */
module Quotes {

  import opened Optional

  /** One quote as the app stores it. `source` and `meaning` are missing on payloads passed
      through from the general-quote endpoint; a missing `tags` array is the empty list. */
  datatype Quote = Quote(
    id: string,
    content: string,
    author: string,
    tags: seq<string>,
    source: Option<string>,
    meaning: Option<string>
  )

  /** Some quote in `qs` has the id `id`: `qs.some(q => q._id === id)`, element by element. */
  function SomeId(qs: seq<Quote>, id: string): (r: bool)
    ensures r <==> exists i :: 0 <= i < |qs| && qs[i].id == id
  {
    if qs == [] then false
    else if qs[0].id == id then true
    else
      var r := SomeId(qs[1..], id);
      assert forall i :: 1 <= i < |qs| ==> qs[i] == qs[1..][i - 1];
      r
  }

  /** The ids in `qs` are pairwise distinct. */
  predicate DistinctIds(qs: seq<Quote>) {
    forall i, j :: 0 <= i < j < |qs| ==> qs[i].id != qs[j].id
  }

  /** `qs.filter(q => q._id !== id)`: every quote with that id is dropped, every other one is
      kept. */
  function FilterOutId(qs: seq<Quote>, id: string): (r: seq<Quote>)
    ensures |r| <= |qs|
    ensures forall q :: q in r <==> q in qs && q.id != id
  {
    if qs == [] then []
    else if qs[0].id == id then FilterOutId(qs[1..], id)
    else [qs[0]] + FilterOutId(qs[1..], id)
  }

  /** Filtering works piece by piece, so the kept quotes stay in their old order. */
  lemma {:induction false} FilterOutIdAppend(a: seq<Quote>, b: seq<Quote>, id: string)
    ensures FilterOutId(a + b, id) == FilterOutId(a, id) + FilterOutId(b, id)
  {
    if a != [] {
      assert (a + b)[1..] == a[1..] + b;
      FilterOutIdAppend(a[1..], b, id);
    } else {
      assert a + b == b;
    }
  }

  /** Filtering out an id nobody has changes nothing. */
  lemma {:induction false} FilterOutAbsentId(qs: seq<Quote>, id: string)
    requires !SomeId(qs, id)
    ensures FilterOutId(qs, id) == qs
  {
    if qs != [] {
      assert qs[0].id != id;
      FilterOutAbsentId(qs[1..], id);
      assert [qs[0]] + qs[1..] == qs;
    }
  }
}

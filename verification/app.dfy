/**
 The state logic of the top-level component: favorites, the theme, loading a batch of
 further quotes, and the fallback to the recent list when loading today's quote fails.
 React's state setters become fields of an immutable state value.
 */
module App {

  import opened Optional
  import opened Quotes
  import opened Storage
  import opened QuoteService

  /** The component's state next to the store it persists into. `quote` is `None` while no
      quote has been shown (`null`). */
  datatype AppState = AppState(quote: Option<Value>, theme: string, favorites: seq<Quote>, store: Store)

  // ---------------------------------------------------------------------------------------
  // Favorites

  /** `isQuoteFavorited`: some favorite carries the quote's id. */
  function IsQuoteFavorited(favorites: seq<Quote>, q: Quote): (r: bool)
    ensures r <==> exists i :: 0 <= i < |favorites| && favorites[i].id == q.id
  {
    SomeId(favorites, q.id)
  }

  /** `toggleFavorite`: a favorited id is removed (every entry carrying it), an unknown quote
      is appended; the new list is persisted under `favorites`. */
  function ToggleFavorite(st: AppState, q: Quote): (r: AppState)
    ensures IsQuoteFavorited(r.favorites, q) <==> !IsQuoteFavorited(st.favorites, q)
    ensures IsQuoteFavorited(st.favorites, q) ==>
              forall x :: x in r.favorites <==> x in st.favorites && x.id != q.id
    ensures IsQuoteFavorited(st.favorites, q) ==> r.favorites == FilterOutId(st.favorites, q.id)
    ensures !IsQuoteFavorited(st.favorites, q) ==> r.favorites == st.favorites + [q]
    ensures r.store == st.store[FavoritesKey := ListValue(r.favorites)]
    ensures r.quote == st.quote && r.theme == st.theme
  {
    var favorites := if IsQuoteFavorited(st.favorites, q) then FilterOutId(st.favorites, q.id)
                     else st.favorites + [q];
    assert !IsQuoteFavorited(st.favorites, q) ==> favorites[|favorites| - 1] == q;
    st.(favorites := favorites, store := st.store[FavoritesKey := ListValue(favorites)])
  }

  /** Toggling a quote that is not a favorite, then toggling it again, restores the list. */
  lemma ToggleFavoriteTwiceRestores(st: AppState, q: Quote)
    requires !IsQuoteFavorited(st.favorites, q)
    ensures ToggleFavorite(ToggleFavorite(st, q), q).favorites == st.favorites
  {
    FilterOutIdAppend(st.favorites, [q], q.id);
    FilterOutAbsentId(st.favorites, q.id);
  }

  /** Toggling a favorite off and on again moves it to the end; the others keep their order. */
  lemma ToggleFavoriteTwiceMovesToEnd(st: AppState, q: Quote)
    requires IsQuoteFavorited(st.favorites, q)
    ensures ToggleFavorite(ToggleFavorite(st, q), q).favorites == FilterOutId(st.favorites, q.id) + [q]
  {
  }

  /** Removing entries keeps distinct ids distinct. */
  lemma {:induction false} FilterOutIdKeepsDistinct(qs: seq<Quote>, id: string)
    requires DistinctIds(qs)
    ensures DistinctIds(FilterOutId(qs, id))
  {
    if qs != [] {
      FilterOutIdKeepsDistinct(qs[1..], id);
      var rest := FilterOutId(qs[1..], id);
      forall x | x in rest ensures x.id != qs[0].id {
        var k :| 0 <= k < |qs[1..]| && qs[1..][k] == x;
        assert qs[k + 1] == x;
      }
    }
  }

  /** Favorites never hold the same id twice if they did not before. */
  lemma ToggleFavoriteKeepsDistinct(st: AppState, q: Quote)
    requires DistinctIds(st.favorites)
    ensures DistinctIds(ToggleFavorite(st, q).favorites)
  {
    if IsQuoteFavorited(st.favorites, q) {
      FilterOutIdKeepsDistinct(st.favorites, q.id);
    }
  }

  // ---------------------------------------------------------------------------------------
  // Theme

  /** The theme after a toggle: `light` becomes `dark`, anything else becomes `light`. */
  function NextTheme(theme: string): (r: string)
    ensures r == "light" || r == "dark"
    ensures (theme == "light" || theme == "dark") ==> r != theme
    ensures theme == "light" ==> r == "dark"
    ensures theme != "light" ==> r == "light"
  {
    if theme == "light" then "dark" else "light"
  }

  /** `handleThemeToggle`: switch the theme and persist it under `theme`. */
  function HandleThemeToggle(st: AppState): (r: AppState)
    ensures r.theme == NextTheme(st.theme)
    ensures r.store == st.store[ThemeKey := TextValue(r.theme)]
    ensures r.favorites == st.favorites && r.quote == st.quote
  {
    var theme := NextTheme(st.theme);
    st.(theme := theme, store := st.store[ThemeKey := TextValue(theme)])
  }

  /** Two toggles return a light or dark theme to where it was. */
  lemma ThemeToggleTwice(st: AppState)
    requires st.theme == "light" || st.theme == "dark"
    ensures HandleThemeToggle(HandleThemeToggle(st)).theme == st.theme
  {
  }

  // ---------------------------------------------------------------------------------------
  // Loading more quotes

  /** The quotes the given attempts obtain against `store`, in attempt order. */
  function Successes(store: Store, attempts: seq<Attempt>): (qs: seq<Quote>)
    ensures |qs| <= |attempts|
  {
    if attempts == [] then []
    else
      var last := FetchForSource(store, attempts[|attempts| - 1]).quote;
      Successes(store, attempts[..|attempts| - 1]) + (if last.Some? then [last.value] else [])
  }

  /** The store after remembering each quote in turn. */
  function RememberAll(store: Store, qs: seq<Quote>): Store {
    if qs == [] then store
    else AddToCachedQuotes(RememberAll(store, qs[..|qs| - 1]), qs[|qs| - 1])
  }

  /** A fetch depends on the store only through the source preference. */
  lemma FetchDependsOnSource(s1: Store, s2: Store, a: Attempt)
    requires QuoteSource(s1) == QuoteSource(s2)
    ensures FetchForSource(s1, a) == FetchForSource(s2, a)
  {
  }

  /** One more call of `getRandomQuote` extends the successes by its quote, if any, and the
      store by remembering it. */
  lemma LoadStep(store: Store, attempts: seq<Attempt>, i: nat, quotes: seq<Quote>, after: Store)
    requires i < |attempts|
    requires quotes == Successes(store, attempts[..i]) && after == RememberAll(store, quotes)
    requires QuoteSource(after) == QuoteSource(store)
    ensures var r := RandomQuote(after, attempts[i]);
            var more := if r.quote.Some? then quotes + [r.quote.value] else quotes;
            && more == Successes(store, attempts[..i + 1])
            && r.store == RememberAll(store, more)
            && QuoteSource(r.store) == QuoteSource(store)
  {
    FetchDependsOnSource(after, store, attempts[i]);
    assert attempts[..i + 1][..i] == attempts[..i];
    var r := RandomQuote(after, attempts[i]);
    if r.quote.Some? {
      var more := quotes + [r.quote.value];
      assert more[..|more| - 1] == quotes;
    }
  }

  /** `loadMoreQuotes(count)`: `count` calls of `getRandomQuote`, one after the other; the
      quotes of the calls that did not throw are returned in call order. Each attempt's
      outside inputs are given by `attempts`. The feed passes `count` itself (4 when it
      preloads, 3 on scroll), so the default of 3 is never used. */
  method LoadMoreQuotes(store: Store, count: nat, attempts: seq<Attempt>) returns (quotes: seq<Quote>, after: Store)
    requires count <= |attempts|
    ensures |quotes| <= count
    ensures quotes == Successes(store, attempts[..count])
    ensures after == RememberAll(store, quotes)
    ensures QuoteSource(after) == QuoteSource(store)
  {
    quotes := [];
    after := store;
    var i := 0;
    while i < count
      invariant i <= count
      invariant quotes == Successes(store, attempts[..i])
      invariant after == RememberAll(store, quotes)
      invariant QuoteSource(after) == QuoteSource(store)
    {
      var r := RandomQuote(after, attempts[i]);
      LoadStep(store, attempts, i, quotes, after);
      if r.quote.Some? {
        quotes := quotes + [r.quote.value];
      }
      after := r.store;
      i := i + 1;
    }
    assert attempts[..count] == attempts[..i];
  }

  // ---------------------------------------------------------------------------------------
  // Today's quote

  /** `loadTodaysQuote`: show what `getDailyQuote` returned, the store being the one that call
      left behind; if it threw (`None`), show the first entry of a truthy stored
      `cachedQuotes` with a positive `length`, else keep the current state. */
  function LoadTodaysQuote(st: AppState, daily: Option<Daily>): (r: AppState)
    ensures daily.Some? ==> r == st.(quote := Some(daily.value.value), store := daily.value.store)
    ensures daily.None? ==> r.store == st.store && r.favorites == st.favorites && r.theme == st.theme
    ensures daily.None? && !HasTruthy(st.store, CachedQuotesKey) ==> r == st
    ensures daily.None? && HasTruthy(st.store, CachedQuotesKey) && st.store[CachedQuotesKey].ListValue? ==>
              var qs := st.store[CachedQuotesKey].quotes;
              r == if qs != [] then st.(quote := Some(QuoteValue(qs[0]))) else st
    ensures daily.None? && HasTruthy(st.store, CachedQuotesKey) && st.store[CachedQuotesKey].TextValue? ==>
              r == st.(quote := Some(TextValue([st.store[CachedQuotesKey].text[0]])))
    ensures daily.None? && HasTruthy(st.store, CachedQuotesKey) && st.store[CachedQuotesKey].QuoteValue? ==>
              r == st
  {
    match daily
    case Some(d) => st.(quote := Some(d.value), store := d.store)
    case None =>
      if !HasTruthy(st.store, CachedQuotesKey) then st
      else
        match st.store[CachedQuotesKey]
        // `cachedQuotes[0]` of an array is its first quote ...
        case ListValue(qs) => if |qs| > 0 then st.(quote := Some(QuoteValue(qs[0]))) else st
        // ... of a (truthy, so non-empty) string its first character ...
        case TextValue(s) => st.(quote := Some(TextValue([s[0]])))
        // ... and an object has no `length`, so the comparison is false.
        case QuoteValue(_) => st
  }

  /** `getDailyQuote` never throws, so the recent-list fallback is never taken: the shown
      quote is always the daily one, and the store is the one the lookup left, with today's
      memo in place whenever the quote was fetched. */
  lemma TodaysQuoteIsDaily(st: AppState, date: Date, a: Attempt)
    ensures var d := DailyQuote(st.store, date, a);
            var r := LoadTodaysQuote(st, Some(d));
            && r.quote == Some(d.value) && r.store == d.store
            && (FetchForSource(st.store, a).quote.Some? ==> HasTruthy(r.store, TodayKey(date)))
            && r.favorites == st.favorites && r.theme == st.theme
  {
    var d := DailyQuote(st.store, date, a);
    if !HasTruthy(st.store, TodayKey(date)) && FetchForSource(st.store, a).quote.Some? {
      assert d.store[TodayKey(date)] == QuoteValue(FetchForSource(st.store, a).quote.value);
    }
  }
}

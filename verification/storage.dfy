/**
 The persistent key-value store the app reads and writes through `storageService`, as a
 map from keys to stored values, with JavaScript's truthiness of a read.
 */
module Storage {

  import opened Quotes

  /** What the app stores: a quote object, an array of quotes, or a string. */
  datatype Value =
    | QuoteValue(quote: Quote)
    | ListValue(quotes: seq<Quote>)
    | TextValue(text: string)

  type Store = map<string, Value>

  const CachedQuotesKey := "cachedQuotes"
  const QuoteSourceKey := "quoteSource"
  const FavoritesKey := "favorites"
  const ThemeKey := "theme"

  /** JavaScript truthiness of a stored value: objects and arrays (even empty ones) are
      truthy; of strings only the empty one is falsy. */
  predicate Truthy(v: Value) {
    !(v.TextValue? && v.text == "")
  }

  /** `storageService.get(key)` is truthy: the key is present with a truthy value. */
  predicate HasTruthy(store: Store, key: string) {
    key in store && Truthy(store[key])
  }
}

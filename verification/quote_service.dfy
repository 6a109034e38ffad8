/**
 The quote service: where a quote comes from (a random Bible verse or the general-quote
 endpoint), how it is shaped, the date-keyed "today's quote" memo, the bounded list of
 recent quotes, and the stored source preference.

 Everything the service reads from outside is a parameter: the store, the calendar date,
 the random choices (as indices already drawn), the value of `Date.now()` and the outcome
 of each HTTP request. Each operation returns the requests it made, so "no fetch" can be
 stated.
 */
module QuoteService {

  import opened Optional
  import opened Text
  import opened Decimal
  import opened Quotes
  import opened Storage

  // ---------------------------------------------------------------------------------------
  // Endpoints and requests

  const QuotableApi := "https://api.quotable.io"
  const BibleApi := "https://bible-api.com"

  /** An HTTP request the service made, by URL. */
  datatype Request = Get(url: string)

  const GeneralRequest := Get(QuotableApi + "/random")

  function BibleRequest(reference: string): Request {
    Get(BibleApi + "/" + reference)
  }

  /** How the Bible endpoint answered: a non-ok status or transport failure, or a JSON body
      whose `text` and `reference` fields are given ("" when absent). */
  datatype BibleOutcome = BibleFailed | BibleOk(text: string, reference: string)

  /** How the general-quote endpoint answered: a failure, or a quote passed through as-is. */
  datatype GeneralOutcome = GeneralFailed | GeneralOk(payload: Quote)

  /** A fetch: the quote obtained (`None` when an error was thrown) and the requests made. */
  datatype Fetched = Fetched(quote: Option<Quote>, requests: seq<Request>)

  // ---------------------------------------------------------------------------------------
  // Bible references

  datatype Book = Book(name: string, chapters: nat)

  /** The books a random verse is drawn from, with their chapter counts. */
  const Books: seq<Book> := [
    Book("Genesis", 50), Book("Exodus", 40), Book("Psalms", 150), Book("Proverbs", 31),
    Book("Isaiah", 66), Book("Matthew", 28), Book("Mark", 16), Book("Luke", 24),
    Book("John", 21), Book("Acts", 28), Book("Romans", 16), Book("Corinthians", 16),
    Book("Ephesians", 6), Book("Philippians", 4), Book("James", 5), Book("Peter", 5),
    Book("Revelation", 22)
  ]

  /** Verses are drawn from 1 to this bound whatever the chapter's real length. */
  const MaxVerse := 20

  /** The three random draws, as zero-based offsets: the book, the chapter within the book
      and the verse within the chapter. */
  datatype Pick = Pick(book: nat, chapter: nat, verse: nat)

  predicate ValidPick(p: Pick) {
    p.book < |Books| && p.chapter < Books[p.book].chapters && p.verse < MaxVerse
  }

  /** Offsets that `Math.floor(Math.random() * n)` can produce. */
  type BiblePick = p: Pick | ValidPick(p) witness Pick(0, 0, 0)

  /** The reference `Book+chapter:verse` the verse is requested by, with one-based chapter
      and verse numbers. */
  function BibleReference(p: BiblePick): (r: string)
    ensures ParseReference(r).Some? && ParseReference(r).value.book == Books[p.book].name
  {
    BookNamesAreWords();
    ReferenceRoundTrip(Books[p.book].name, p.chapter + 1, p.verse + 1);
    Books[p.book].name + "+" + NatToString(p.chapter + 1) + ":" + NatToString(p.verse + 1)
  }

  /** A reference read back into its parts. */
  datatype Reference = Reference(book: string, chapter: nat, verse: nat)

  /** Reads `Book+chapter:verse` back; `None` for anything of another shape. */
  function ParseReference(r: string): Option<Reference> {
    var parts := Split(r, '+');
    if |parts| != 2 then None
    else
      var numbers := Split(parts[1], ':');
      if |numbers| != 2 || numbers[0] == [] || numbers[1] == []
         || !AllDigits(numbers[0]) || !AllDigits(numbers[1]) then None
      else Some(Reference(parts[0], ValueOf(numbers[0], 10), ValueOf(numbers[1], 10)))
  }

  predicate IsAsciiLetter(c: char) {
    'a' <= c <= 'z' || 'A' <= c <= 'Z'
  }

  predicate AllLetters(s: string) {
    forall i :: 0 <= i < |s| ==> IsAsciiLetter(s[i])
  }

  /** Every book name is a non-empty run of ASCII letters. */
  lemma BookNamesAreWords()
    ensures forall i :: 0 <= i < |Books| ==> Books[i].name != [] && AllLetters(Books[i].name)
  {
    forall i | 0 <= i < |Books|
      ensures Books[i].name != [] && AllLetters(Books[i].name)
    {
      var n := Books[i].name;
      assert n in {"Genesis", "Exodus", "Psalms", "Proverbs", "Isaiah", "Matthew", "Mark",
        "Luke", "John", "Acts", "Romans", "Corinthians", "Ephesians", "Philippians",
        "James", "Peter", "Revelation"};
    }
  }

  /** `chapter:verse` splits on `:` into the two numbers' text. */
  lemma NumbersSplit(c: string, v: string)
    requires AllDigits(c) && AllDigits(v)
    ensures Split(c + ":" + v, ':') == [c, v]
  {
    assert forall k :: 0 <= k < |c| ==> c[k] != ':';
    assert forall k :: 0 <= k < |v| ==> v[k] != ':';
    assert c + ":" + v == c + [':'] + v;
    SplitAt(c, ':', v);
    SplitWhole(v, ':');
  }

  /** `Name+chapter:verse` reads back as its parts for any word and numbers. */
  lemma ReferenceRoundTrip(name: string, chapter: nat, verse: nat)
    requires AllLetters(name)
    ensures ParseReference(name + "+" + NatToString(chapter) + ":" + NatToString(verse))
            == Some(Reference(name, chapter, verse))
  {
    var c := NatToString(chapter);
    var v := NatToString(verse);
    assert forall k :: 0 <= k < |name| ==> name[k] != '+';
    var tail := c + ":" + v;
    assert forall k :: 0 <= k < |tail| ==> tail[k] != '+';
    assert name + "+" + c + ":" + v == name + ['+'] + tail;
    SplitAt(name, '+', tail);
    SplitWhole(tail, '+');
    NumbersSplit(c, v);
  }

  /** The reference reads back as the chosen book with a chapter in `[1, chapters]` and a
      verse in `[1, 20]`. */
  lemma BibleReferenceRoundTrip(p: BiblePick)
    ensures ParseReference(BibleReference(p))
            == Some(Reference(Books[p.book].name, p.chapter + 1, p.verse + 1))
    ensures 1 <= p.chapter + 1 <= Books[p.book].chapters && 1 <= p.verse + 1 <= MaxVerse
  {
    BookNamesAreWords();
    ReferenceRoundTrip(Books[p.book].name, p.chapter + 1, p.verse + 1);
  }

  // ---------------------------------------------------------------------------------------
  // Reflection text for a verse

  /** The own property names of `BOOK_MEANINGS`, in declaration order. */
  const MeaningKeys: seq<string> := [
    "Genesis", "Exodus", "Psalms", "Proverbs", "Isaiah", "Matthew", "Mark", "Luke", "John",
    "Acts", "Romans", "Corinthians", "Ephesians", "Philippians", "James", "Peter", "Revelation"
  ]

  /** The reflection text stored under `MeaningKeys[i]`: its first word, then the rest. The
      two parts are kept apart so that a proof about the first word never has to read the
      long remainder. */
  function MeaningText(i: nat): string
    requires i < |MeaningKeys|
  {
    MeaningFirstWord(i) + MeaningRest(i)
  }

  function MeaningFirstWord(i: nat): string
    requires i < |MeaningKeys|
  {
    if i == 0 then "This"
    else if i == 1 then "From"
    else if i == 2 then "This"
    else if i == 3 then "This"
    else if i == 4 then "Isaiah's"
    else if i == 5 then "From"
    else if i == 6 then "Mark"
    else if i == 7 then "Luke"
    else if i == 8 then "John"
    else if i == 9 then "From"
    else if i == 10 then "Paul's"
    else if i == 11 then "This"
    else if i == 12 then "Ephesians"
    else if i == 13 then "Paul's"
    else if i == 14 then "James"
    else if i == 15 then "Peter"
    else "Revelation"
  }

  function MeaningRest(i: nat): string
    requires i < |MeaningKeys|
  {
    if i == 0 then " verse from Genesis reminds us of God's creative power and the foundations of faith. It speaks to new beginnings and God's sovereign plan for creation."
    else if i == 1 then " Exodus, this passage reflects on God's deliverance and faithfulness. It reminds us that God leads His people out of bondage into freedom."
    else if i == 2 then " Psalm expresses heartfelt worship and trust in God. It teaches us to bring our joys, sorrows, and prayers before the Lord."
    else if i == 3 then " proverb offers practical wisdom for daily living. It encourages us to seek understanding and walk in righteousness."
    else if i == 4 then " prophetic words point us to God's holiness and His plan of redemption. This verse calls us to trust in the Lord's perfect timing."
    else if i == 5 then " Matthew's Gospel, this verse teaches us about the Kingdom of Heaven and Jesus's teachings. It invites us to follow Christ more closely."
    else if i == 6 then " presents Jesus as the suffering Servant. This passage reminds us of Christ's mission and calls us to faithful discipleship."
    else if i == 7 then " emphasizes God's compassion for all people. This verse highlights the inclusive nature of God's love and salvation."
    else if i == 8 then " reveals the divine nature of Christ. This verse deepens our understanding of eternal life and our relationship with God."
    else if i == 9 then " Acts, this passage shows the power of the Holy Spirit in the early church. It inspires us to be bold witnesses for Christ."
    else if i == 10 then " letter to the Romans explains salvation by grace through faith. This verse clarifies the Gospel and our response to it."
    else if i == 11 then " verse addresses Christian living and spiritual gifts. It guides us in building up the body of Christ with love."
    else if i == 12 then " reveals our identity in Christ. This passage reminds us of the spiritual blessings we have as believers."
    else if i == 13 then " letter of joy teaches us contentment. This verse encourages us to find our strength and satisfaction in Christ."
    else if i == 14 then " emphasizes faith in action. This practical teaching calls us to demonstrate our faith through good works."
    else if i == 15 then " writes about hope and perseverance. This verse strengthens us to stand firm in our faith during trials."
    else " unveils the ultimate victory of Christ. This passage reminds us of the glorious future that awaits believers."
  }

  /** Every reflection text is non-empty. */
  lemma MeaningTextNonEmpty(i: nat)
    requires i < |MeaningKeys|
    ensures MeaningText(i) != []
  {
  }

  /** The table's keys are distinct and are exactly the books references are drawn from, in
      the same order. */
  lemma MeaningKeysShape()
    ensures forall i, j :: 0 <= i < j < |MeaningKeys| ==> MeaningKeys[i] != MeaningKeys[j]
    ensures |MeaningKeys| == |Books|
    ensures forall i :: 0 <= i < |Books| ==> Books[i].name == MeaningKeys[i]
  {
  }

  /** Every key is a capitalised word. */
  lemma MeaningKeysCapitalised()
    ensures forall i :: 0 <= i < |MeaningKeys| ==> MeaningKeys[i] != [] && 'A' <= MeaningKeys[i][0] <= 'Z'
  {
  }

  /** The position at or after `from` of the table entry for `name`. */
  function EntryFrom(name: string, from: nat): (r: Option<nat>)
    requires from <= |MeaningKeys|
    ensures r.Some? ==> from <= r.value < |MeaningKeys| && MeaningKeys[r.value] == name
    ensures r.None? ==> forall j :: from <= j < |MeaningKeys| ==> MeaningKeys[j] != name
    decreases |MeaningKeys| - from
  {
    if from == |MeaningKeys| then None
    else if MeaningKeys[from] == name then Some(from)
    else EntryFrom(name, from + 1)
  }

  /** `BOOK_MEANINGS[name]` restricted to own entries: the text stored for `name`, if any. */
  function OwnMeaning(name: string): (r: Option<string>)
    ensures r.Some? <==> exists i :: 0 <= i < |MeaningKeys| && MeaningKeys[i] == name
    ensures forall i :: 0 <= i < |MeaningKeys| && MeaningKeys[i] == name ==> r == Some(MeaningText(i))
  {
    MeaningKeysShape();
    match EntryFrom(name, 0)
    case None => None
    case Some(i) => Some(MeaningText(i))
  }

  /** The reflection for a verse whose book has no entry, its first word kept apart as in
      `MeaningText`. */
  const GenericMeaning := "Reflect" + " on this verse and consider how it applies to your life. May it bring you wisdom, comfort, and inspiration for your daily walk."

  /** Where the book-name pattern `/^\d?\s*([A-Za-z]+)/` looks for its word: after at most
      one leading ASCII digit and the white space that follows it. */
  function WordStart(reference: string): (i: nat)
    ensures i <= |reference|
    ensures reference != [] && IsDigit(reference[0]) ==> 1 <= i
    ensures forall k :: (if reference != [] && IsDigit(reference[0]) then 1 else 0) <= k < i ==>
              IsJsSpace(reference[k])
    ensures i < |reference| ==> !IsJsSpace(reference[i])
  {
    var d := if reference != [] && IsDigit(reference[0]) then 1 else 0;
    var spaces := LeadingRun(reference[d..], IsJsSpace);
    assert forall k :: d <= k < d + |spaces| ==> reference[k] == spaces[k - d];
    d + |spaces|
  }

  /** The capture of `/^\d?\s*([A-Za-z]+)/`: the run of ASCII letters at `WordStart`;
      `None` when there is none there. Backtracking cannot find another match: without the
      digit, the letter run would have to start on that digit. */
  function BookNameOf(reference: string): (r: Option<string>)
    ensures r.Some? ==> r.value != [] && AllLetters(r.value)
    ensures r.Some? <==> WordStart(reference) < |reference| && IsAsciiLetter(reference[WordStart(reference)])
    ensures r.Some? ==>
              var i := WordStart(reference);
              && i + |r.value| <= |reference| && reference[i..i + |r.value|] == r.value
              && (i + |r.value| == |reference| || !IsAsciiLetter(reference[i + |r.value|]))
  {
    var i := WordStart(reference);
    var name := LeadingRun(reference[i..], IsAsciiLetter);
    if name == [] then None else Some(name)
  }

  /** A reference built as optional digit, white space, a word and a tail that does not
      continue the word, yields that word. */
  lemma BookNameOfBuilt(digit: string, spaces: string, name: string, tail: string)
    requires digit == [] || (|digit| == 1 && IsDigit(digit[0]))
    requires forall i :: 0 <= i < |spaces| ==> IsJsSpace(spaces[i])
    requires name != [] && AllLetters(name)
    requires tail == [] || !IsAsciiLetter(tail[0])
    ensures BookNameOf(digit + spaces + name + tail) == Some(name)
  {
    var s := digit + spaces + name + tail;
    var afterDigit := if s != [] && IsDigit(s[0]) then s[1..] else s;
    if digit == [] {
      assert s == spaces + (name + tail);
      assert s[0] == if spaces != [] then spaces[0] else name[0];
      assert !IsDigit(s[0]);
    } else {
      assert s == digit + (spaces + (name + tail));
    }
    assert afterDigit == spaces + (name + tail);
    assert !IsJsSpace(name[0]);
    LeadingRunOfAll(spaces, name + tail, IsJsSpace);
    assert afterDigit[|spaces|..] == name + tail;
    LeadingRunOfAll(name, tail, IsAsciiLetter);
  }

  /** A reference that has no ASCII letter has no book name. */
  lemma BookNameOfNoWord(reference: string)
    requires forall i :: 0 <= i < |reference| ==> !IsAsciiLetter(reference[i])
    ensures BookNameOf(reference) == None
  {
  }

  /** `getMeaningForVerse`, looking up only the table's own entries: the book's reflection
      text when the parsed book name is in the table, the generic text otherwise. */
  function MeaningForVerse(reference: string): (m: string)
    ensures BookNameOf(reference).Some? && OwnMeaning(BookNameOf(reference).value).Some? ==>
              m == OwnMeaning(BookNameOf(reference).value).value
    ensures BookNameOf(reference).None? || OwnMeaning(BookNameOf(reference).value).None? ==>
              m == GenericMeaning
  {
    MeaningKeysShape();
    var name := BookNameOf(reference);
    if name.Some? && OwnMeaning(name.value).Some? then OwnMeaning(name.value).value
    else GenericMeaning
  }

  /** The reflection shown for a verse is never empty, whatever the reference. */
  lemma MeaningForVerseNonEmpty(reference: string)
    ensures MeaningForVerse(reference) != []
  {
    var name := BookNameOf(reference);
    if name.Some? && OwnMeaning(name.value).Some? {
      var i :| 0 <= i < |MeaningKeys| && MeaningKeys[i] == name.value;
      MeaningTextNonEmpty(i);
    } else {
      assert |GenericMeaning| >= |"Reflect"|;
    }
  }

  /** A reference whose captured name is the `i`-th key gets that key's text. */
  lemma MeaningOfListedName(reference: string, i: nat)
    requires i < |MeaningKeys| && BookNameOf(reference) == Some(MeaningKeys[i])
    ensures MeaningForVerse(reference) == MeaningText(i)
  {
  }

  lemma PeterName()
    ensures BookNameOf("2 Peter 1:3") == Some("Peter")
  {
    var s := "2 Peter 1:3";
    assert IsDigit(s[0]) && s[1..] == " " + ("Peter" + " 1:3");
    LeadingRunOfAll(" ", "Peter" + " 1:3", IsJsSpace);
    assert s[1..][1..] == "Peter" + " 1:3";
    LeadingRunOfAll("Peter", " 1:3", IsAsciiLetter);
  }

  /** A numbered book resolves through its bare name. */
  lemma MeaningOfNumberedBook()
    ensures MeaningForVerse("2 Peter 1:3") == MeaningText(15)
  {
    assert BookNameOf("2 Peter 1:3") == Some(MeaningKeys[15]) by {
      PeterName();
      assert MeaningKeys[15] == "Peter";
    }
    MeaningOfListedName("2 Peter 1:3", 15);
  }

  lemma HabakkukName()
    ensures BookNameOf("Habakkuk 2:4") == Some("Habakkuk")
  {
    WordThenSpace("Habakkuk", " 2:4");
    assert "Habakkuk" + " 2:4" == "Habakkuk 2:4";
  }

  lemma HabakkukUnlisted()
    ensures OwnMeaning("Habakkuk") == None
  {
    assert forall i :: 0 <= i < |MeaningKeys| ==> MeaningKeys[i][0] != 'H';
    assert "Habakkuk"[0] == 'H';
  }

  /** An unlisted book gets the generic text. */
  lemma MeaningOfUnlistedBook()
    ensures MeaningForVerse("Habakkuk 2:4") == GenericMeaning
  {
    HabakkukName();
    HabakkukUnlisted();
  }

  /** Turning `+` into spaces leaves a word without `+` in place. */
  lemma SpacedPrefix(name: string, tail: string)
    requires '+' !in name
    ensures ReplaceAllChar(name + "+" + tail, '+', ' ') == name + ([' '] + ReplaceAllChar(tail, '+', ' '))
  {
    var r := name + "+" + tail;
    var spaced := ReplaceAllChar(r, '+', ' ');
    var expected := name + ([' '] + ReplaceAllChar(tail, '+', ' '));
    assert forall i :: 0 <= i < |name| ==> r[i] == name[i];
    assert forall i :: |name| < i < |r| ==> r[i] == tail[i - |name| - 1];
    assert forall i :: 0 <= i < |r| ==> spaced[i] == expected[i];
  }

  /** A word followed by a space is captured whole. */
  lemma WordThenSpace(name: string, rest: string)
    requires name != [] && AllLetters(name)
    requires rest != [] && rest[0] == ' '
    ensures BookNameOf(name + rest) == Some(name)
  {
    var s := name + rest;
    assert s[0] == name[0] && IsAsciiLetter(s[0]);
    assert LeadingRun(s, IsJsSpace) == [];
    assert s[0..] == s;
    LeadingRunOfAll(name, rest, IsAsciiLetter);
  }

  /** `Name+tail` with `+` turned into a space names the book `Name`. */
  lemma SpacedReferenceName(name: string, tail: string)
    requires name != [] && AllLetters(name)
    ensures BookNameOf(ReplaceAllChar(name + "+" + tail, '+', ' ')) == Some(name)
  {
    assert forall k :: 0 <= k < |name| ==> name[k] != '+';
    SpacedPrefix(name, tail);
    WordThenSpace(name, [' '] + ReplaceAllChar(tail, '+', ' '));
  }

  /** A generated reference, with `+` turned into a space, names its book. */
  lemma GeneratedBookName(p: BiblePick)
    ensures BookNameOf(ReplaceAllChar(BibleReference(p), '+', ' ')) == Some(Books[p.book].name)
  {
    var name := Books[p.book].name;
    var tail := NatToString(p.chapter + 1) + ":" + NatToString(p.verse + 1);
    BookNamesAreWords();
    assert BibleReference(p) == name + "+" + tail;
    SpacedReferenceName(name, tail);
  }

  /** For a reference the service generated itself (with `+` turned into a space), the
      meaning is always the chosen book's own text. */
  lemma MeaningOfGeneratedReference(p: BiblePick)
    ensures MeaningForVerse(ReplaceAllChar(BibleReference(p), '+', ' ')) == MeaningText(p.book)
  {
    GeneratedBookName(p);
    MeaningKeysShape();
    assert OwnMeaning(Books[p.book].name) == Some(MeaningText(p.book));
  }

  // ---------------------------------------------------------------------------------------
  // The lookup as written reads inherited members of the table object

  /** The property names every plain JavaScript object inherits from `Object.prototype`
      that consist of ASCII letters only, so that the book-name pattern can capture them. */
  const InheritedMembers: set<string> := {
    "constructor", "hasOwnProperty", "isPrototypeOf", "propertyIsEnumerable",
    "toLocaleString", "toString", "valueOf"
  }

  /** What `BOOK_MEANINGS[bookName] || generic` evaluates to: a string, or an inherited
      function object when the captured name is an `Object.prototype` member. */
  datatype MeaningValue = Text(text: string) | InheritedFunction(member: string)

  /** `getMeaningForVerse` exactly as written, with the table looked up as a plain object. */
  function MeaningAsWritten(reference: string): (m: MeaningValue)
    ensures m.InheritedFunction? ==> m.member in InheritedMembers
  {
    match BookNameOf(reference)
    case Some(name) =>
      if OwnMeaning(name).Some? then Text(OwnMeaning(name).value)
      else if name in InheritedMembers then InheritedFunction(name)
      else Text(GenericMeaning)
    case None => Text(GenericMeaning)
  }

  /** No inherited member name is a key of the table: they all start with a lower-case
      letter. */
  lemma InheritedMembersAreNotKeys()
    ensures forall k :: k in InheritedMembers ==> OwnMeaning(k) == None
  {
    MeaningKeysCapitalised();
    forall k | k in InheritedMembers ensures OwnMeaning(k) == None {
      assert 'a' <= k[0] <= 'z';
    }
  }

  /** A reference whose book word is `constructor` makes the lookup return a function, not
      a reflection text. */
  lemma MeaningAsWrittenReturnsFunction()
    ensures MeaningAsWritten("constructor 1:1") == InheritedFunction("constructor")
    ensures !MeaningAsWritten("constructor 1:1").Text?
  {
    BookNameOfBuilt("", "", "constructor", " 1:1");
    assert "" + "" + "constructor" + " 1:1" == "constructor 1:1";
    MeaningKeysCapitalised();
    assert "constructor"[0] == 'c';
  }

  /** Apart from those member names, the written lookup and the own-entry lookup agree. */
  lemma MeaningAsWrittenAgrees(reference: string)
    requires BookNameOf(reference).None? || BookNameOf(reference).value !in InheritedMembers
    ensures MeaningAsWritten(reference) == Text(MeaningForVerse(reference))
  {
  }

  // ---------------------------------------------------------------------------------------
  // Fetching one quote

  /** `fetchGeneralQuote`: one request; a failure propagates as a thrown error. */
  function FetchGeneral(general: GeneralOutcome): (f: Fetched)
    ensures f.requests == [GeneralRequest]
    ensures f.quote.Some? <==> general.GeneralOk?
    ensures general.GeneralOk? ==> f.quote.value == general.payload
  {
    match general
    case GeneralFailed => Fetched(None, [GeneralRequest])
    case GeneralOk(payload) => Fetched(Some(payload), [GeneralRequest])
  }

  /** The quote built from a Bible answer with non-empty `text`. */
  function BibleQuote(reference: string, now: nat, text: string, answeredReference: string): (q: Quote)
    ensures q.id == "bible_" + NatToString(now)
    ensures q.tags == ["bible", "scripture"] && q.source == Some("bible")
    ensures q.content == Trim(text)
    ensures q.author == (if answeredReference != "" then answeredReference
                         else ReplaceAllChar(reference, '+', ' '))
    ensures q.meaning == Some(MeaningForVerse(q.author))
  {
    var verseRef := if answeredReference != "" then answeredReference else ReplaceAllChar(reference, '+', ' ');
    Quote("bible_" + NatToString(now), Trim(text), verseRef, ["bible", "scripture"],
          Some("bible"), Some(MeaningForVerse(verseRef)))
  }

  /** `fetchBibleVerse`: request the picked verse; a failed request or an empty `text` falls
      back to the general endpoint, whose outcome is then the result. */
  function FetchBible(pick: BiblePick, now: nat, bible: BibleOutcome, general: GeneralOutcome): (f: Fetched)
    ensures |f.requests| >= 1 && f.requests[0] == BibleRequest(BibleReference(pick))
    ensures (bible.BibleFailed? || bible.text == "") ==>
              f.quote == FetchGeneral(general).quote
              && f.requests == [BibleRequest(BibleReference(pick)), GeneralRequest]
    ensures (bible.BibleOk? && bible.text != "") ==>
              f.requests == [BibleRequest(BibleReference(pick))]
              && f.quote == Some(BibleQuote(BibleReference(pick), now, bible.text, bible.reference))
  {
    var reference := BibleReference(pick);
    match bible
    case BibleOk(text, answered) =>
      if text == "" then
        Fetched(FetchGeneral(general).quote, [BibleRequest(reference)] + FetchGeneral(general).requests)
      else Fetched(Some(BibleQuote(reference, now, text, answered)), [BibleRequest(reference)])
    case BibleFailed =>
      Fetched(FetchGeneral(general).quote, [BibleRequest(reference)] + FetchGeneral(general).requests)
  }

  /** Everything one fetch attempt depends on besides the store. */
  datatype Attempt = Attempt(pick: BiblePick, now: nat, bible: BibleOutcome, general: GeneralOutcome)

  // ---------------------------------------------------------------------------------------
  // Source preference

  const DefaultSource := "bible"

  /** `getQuoteSource`: the stored preference when it is truthy, `'bible'` otherwise. */
  function QuoteSource(store: Store): (v: Value)
    ensures Truthy(v)
    ensures HasTruthy(store, QuoteSourceKey) ==> v == store[QuoteSourceKey]
    ensures !HasTruthy(store, QuoteSourceKey) ==> v == TextValue(DefaultSource)
  {
    if HasTruthy(store, QuoteSourceKey) then store[QuoteSourceKey] else TextValue(DefaultSource)
  }

  /** `setQuoteSource`: persist the preference. */
  function SetQuoteSource(store: Store, source: string): (s: Store)
    ensures QuoteSourceKey in s && s[QuoteSourceKey] == TextValue(source)
    ensures forall k :: k in store && k != QuoteSourceKey ==> k in s && s[k] == store[k]
    ensures s.Keys == store.Keys + {QuoteSourceKey}
  {
    store[QuoteSourceKey := TextValue(source)]
  }

  /** Setting a preference and reading it back gives it, unless it is the empty string,
      which reads back as the default. */
  lemma SourceRoundTrip(store: Store, source: string)
    ensures QuoteSource(SetQuoteSource(store, source))
            == TextValue(if source != "" then source else DefaultSource)
  {
  }

  /** No Bible request goes to the general endpoint: the hosts differ. */
  lemma BibleRequestIsNotGeneral(reference: string)
    ensures BibleRequest(reference).url != GeneralRequest.url
  {
    assert BibleRequest(reference).url[8] == 'b';
    assert GeneralRequest.url[8] == 'a';
  }

  /** The fetch the preference selects: the Bible path for exactly the string `'bible'`. */
  function FetchForSource(store: Store, a: Attempt): (f: Fetched)
    ensures |f.requests| >= 1
    ensures f.requests[0].url != GeneralRequest.url <==> QuoteSource(store) == TextValue("bible")
    ensures QuoteSource(store) == TextValue("bible") ==> f == FetchBible(a.pick, a.now, a.bible, a.general)
    ensures QuoteSource(store) != TextValue("bible") ==> f == FetchGeneral(a.general)
  {
    if QuoteSource(store) == TextValue("bible") then
      var f := FetchBible(a.pick, a.now, a.bible, a.general);
      BibleRequestIsNotGeneral(BibleReference(a.pick));
      f
    else FetchGeneral(a.general)
  }

  // ---------------------------------------------------------------------------------------
  // Recent-quotes cache

  const RecentCapacity := 50

  /** The recent-quotes list as stored, `[]` when there is none. */
  function Recent(store: Store): seq<Quote> {
    if CachedQuotesKey in store && store[CachedQuotesKey].ListValue? then store[CachedQuotesKey].quotes
    else []
  }

  /** `storageService.get('cachedQuotes') || []` yields an array: the key is missing, falsy
      or holds a list. Otherwise `list.some` throws and the error is swallowed. */
  predicate RecentReadable(store: Store) {
    !HasTruthy(store, CachedQuotesKey) || store[CachedQuotesKey].ListValue?
  }

  function Min(a: int, b: int): int {
    if a < b then a else b
  }

  /** `addToCachedQuotes`: a quote whose id is not yet in the list goes to the head and the
      list is cut to its first 50 entries; a known id, or an unreadable list, leaves the
      store as it was. No other key is touched. */
  function AddToCachedQuotes(store: Store, q: Quote): (s: Store)
    ensures forall k :: k in store && k != CachedQuotesKey ==> k in s && s[k] == store[k]
    ensures s.Keys <= store.Keys + {CachedQuotesKey}
    ensures !RecentReadable(store) || SomeId(Recent(store), q.id) ==> s == store
    ensures RecentReadable(store) && !SomeId(Recent(store), q.id) ==>
              CachedQuotesKey in s && s[CachedQuotesKey].ListValue?
              && var r := Recent(s);
                 && |r| == Min(|Recent(store)| + 1, RecentCapacity)
                 && r[0] == q
                 && r[1..] == Recent(store)[..|r| - 1]
  {
    if !RecentReadable(store) then store
    else
      var list := Recent(store);
      if SomeId(list, q.id) then store
      else
        var added := [q] + list;
        var kept := if |added| > RecentCapacity then added[..RecentCapacity] else added;
        store[CachedQuotesKey := ListValue(kept)]
  }

  /** The list never grows past 50 through an insertion. */
  lemma AddKeepsBound(store: Store, q: Quote)
    requires |Recent(store)| <= RecentCapacity
    ensures |Recent(AddToCachedQuotes(store, q))| <= RecentCapacity
  {
  }

  /** Distinct ids stay distinct. */
  lemma AddKeepsDistinct(store: Store, q: Quote)
    requires DistinctIds(Recent(store))
    ensures DistinctIds(Recent(AddToCachedQuotes(store, q)))
  {
    var s := AddToCachedQuotes(store, q);
    if s != store {
      var prev := Recent(store);
      var r := Recent(s);
      assert !SomeId(prev, q.id);
      forall i, j | 0 <= i < j < |r| ensures r[i].id != r[j].id {
        if i == 0 {
          assert r[j] == prev[j - 1];
        } else {
          assert r[i] == prev[i - 1] && r[j] == prev[j - 1];
        }
      }
    }
  }

  /** Remembering the same quote twice leaves exactly what remembering it once left. */
  lemma AddIdempotent(store: Store, q: Quote)
    ensures AddToCachedQuotes(AddToCachedQuotes(store, q), q) == AddToCachedQuotes(store, q)
  {
    var s := AddToCachedQuotes(store, q);
    if s != store {
      assert Recent(s)[0] == q;
    }
  }

  // ---------------------------------------------------------------------------------------
  // Today's quote

  /** A local calendar date as `getFullYear`, the zero-based `getMonth` and `getDate` give it. */
  datatype Date = Date(year: int, month: int, day: int)

  /** `getTodayKey`: `quote_<year>_<month>_<day>`, numbers unpadded. */
  function TodayKey(d: Date): (k: string)
    ensures |k| >= 11 && k[..6] == "quote_"
  {
    "quote_" + IntToString(d.year) + "_" + IntToString(d.month) + "_" + IntToString(d.day)
  }

  lemma NoUnderscore(i: int)
    ensures '_' !in IntToString(i)
  {
    var s := IntToString(i);
    assert forall k :: 0 <= k < |s| ==> s[k] != '_';
  }

  /** Split on `_`, a key gives back the prefix and the three numbers' text. */
  lemma TodayKeyParts(d: Date)
    ensures Split(TodayKey(d), '_')
            == ["quote", IntToString(d.year), IntToString(d.month), IntToString(d.day)]
  {
    var y, m, a := IntToString(d.year), IntToString(d.month), IntToString(d.day);
    NoUnderscore(d.year);
    NoUnderscore(d.month);
    NoUnderscore(d.day);
    assert "quote_" == "quote" + ['_'];
    assert TodayKey(d) == "quote" + ['_'] + y + ['_'] + m + ['_'] + a;
    SplitJoin4("quote", y, m, a, '_');
  }

  /** Each date has its own key. */
  lemma TodayKeyInjective(d1: Date, d2: Date)
    requires TodayKey(d1) == TodayKey(d2)
    ensures d1 == d2
  {
    TodayKeyParts(d1);
    TodayKeyParts(d2);
    IntToStringInjective(d1.year, d2.year);
    IntToStringInjective(d1.month, d2.month);
    IntToStringInjective(d1.day, d2.day);
  }

  /** A date key is none of the fixed keys. */
  lemma TodayKeyIsNotFixed(d: Date)
    ensures TodayKey(d) != CachedQuotesKey && TodayKey(d) != QuoteSourceKey
    ensures TodayKey(d) != FavoritesKey && TodayKey(d) != ThemeKey
  {
    var k := TodayKey(d);
    assert k[0] == 'q' && k[5] == '_';
    assert QuoteSourceKey[5] == 'S';
  }

  const FallbackContent := "The best time to plant a tree was 20 years ago. The second best time is now."
  const FallbackAuthor := "Chinese Proverb"

  /** `getFallbackQuote`: fixed content, author and tags, stamped with the clock. */
  function FallbackQuote(now: nat): (q: Quote)
    ensures q.author == FallbackAuthor && q.source == Some("fallback")
    ensures q.content == FallbackContent && q.tags == ["wisdom", "motivation"]
    ensures q.id == "fallback_" + NatToString(now)
    ensures q.meaning == None
  {
    Quote("fallback_" + NatToString(now), FallbackContent, FallbackAuthor,
          ["wisdom", "motivation"], Some("fallback"), None)
  }

  /** The result of `getDailyQuote`: the value returned (it never throws), the store after
      the call, and the requests made. */
  datatype Daily = Daily(value: Value, store: Store, requests: seq<Request>)

  /** `getDailyQuote`: a truthy value under today's key is returned as it is; otherwise the
      quote is fetched from the preferred source, stored under today's key and remembered in
      the recent list; any failure gives the fallback quote and leaves the store alone. */
  function DailyQuote(store: Store, date: Date, a: Attempt): (d: Daily)
    ensures Truthy(d.value)
    ensures HasTruthy(store, TodayKey(date)) ==>
              d.value == store[TodayKey(date)] && d.store == store && d.requests == []
    ensures !HasTruthy(store, TodayKey(date)) ==>
              d.requests == FetchForSource(store, a).requests && d.requests != []
    ensures !HasTruthy(store, TodayKey(date)) && FetchForSource(store, a).quote.Some? ==>
              var q := FetchForSource(store, a).quote.value;
              && d.value == QuoteValue(q)
              && TodayKey(date) in d.store && d.store[TodayKey(date)] == QuoteValue(q)
              && d.store == AddToCachedQuotes(store[TodayKey(date) := QuoteValue(q)], q)
    ensures !HasTruthy(store, TodayKey(date)) && FetchForSource(store, a).quote.None? ==>
              d.value == QuoteValue(FallbackQuote(a.now)) && d.store == store
  {
    var key := TodayKey(date);
    if HasTruthy(store, key) then Daily(store[key], store, [])
    else
      var f := FetchForSource(store, a);
      match f.quote
      case None => Daily(QuoteValue(FallbackQuote(a.now)), store, f.requests)
      case Some(q) =>
        TodayKeyIsNotFixed(date);
        Daily(QuoteValue(q), AddToCachedQuotes(store[key := QuoteValue(q)], q), f.requests)
  }

  /** A fetched daily quote lands in the recent list too, whenever that list is readable. */
  lemma DailyRemembers(store: Store, date: Date, a: Attempt)
    requires !HasTruthy(store, TodayKey(date)) && RecentReadable(store)
    requires FetchForSource(store, a).quote.Some?
    ensures SomeId(Recent(DailyQuote(store, date, a).store), FetchForSource(store, a).quote.value.id)
  {
    var key := TodayKey(date);
    var q := FetchForSource(store, a).quote.value;
    TodayKeyIsNotFixed(date);
    var s1 := store[key := QuoteValue(q)];
    assert Recent(s1) == Recent(store);
    var s2 := AddToCachedQuotes(s1, q);
    if SomeId(Recent(s1), q.id) {
    } else {
      assert Recent(s2)[0] == q;
    }
  }

  /** Within one day the memo holds: once a call has stored a quote, every later call that
      day returns the same value and makes no request. */
  lemma DailyMemo(store: Store, date: Date, a1: Attempt, a2: Attempt)
    requires HasTruthy(DailyQuote(store, date, a1).store, TodayKey(date))
    ensures DailyQuote(DailyQuote(store, date, a1).store, date, a2).value == DailyQuote(store, date, a1).value
    ensures DailyQuote(DailyQuote(store, date, a1).store, date, a2).requests == []
  {
    var key := TodayKey(date);
    var d1 := DailyQuote(store, date, a1);
    var d2 := DailyQuote(d1.store, date, a2);
    assert d2.value == d1.store[key] && d2.requests == [];
    if HasTruthy(store, key) {
      assert d1.value == store[key] && d1.store == store;
    } else {
      var f := FetchForSource(store, a1);
      if f.quote.Some? {
        assert d1.store[key] == QuoteValue(f.quote.value) == d1.value;
      }
    }
  }

  /** Under the `'bible'` preference, a day without a memo whose verse request answers with
      text gets that verse, formatted, as its quote, and memoises it. */
  lemma DailyBibleVerse(store: Store, date: Date, a: Attempt)
    requires !HasTruthy(store, TodayKey(date)) && QuoteSource(store) == TextValue("bible")
    requires a.bible.BibleOk? && a.bible.text != ""
    ensures var q := BibleQuote(BibleReference(a.pick), a.now, a.bible.text, a.bible.reference);
            var d := DailyQuote(store, date, a);
            && d.value == QuoteValue(q)
            && TodayKey(date) in d.store && d.store[TodayKey(date)] == QuoteValue(q)
            && d.requests == [BibleRequest(BibleReference(a.pick))]
  {
  }

  /** Under any other preference, a day without a memo whose general request answers gets
      that payload as its quote, after exactly one request. */
  lemma DailyGeneralQuote(store: Store, date: Date, a: Attempt)
    requires !HasTruthy(store, TodayKey(date)) && QuoteSource(store) != TextValue("bible")
    requires a.general.GeneralOk?
    ensures var d := DailyQuote(store, date, a);
            && d.value == QuoteValue(a.general.payload)
            && TodayKey(date) in d.store && d.store[TodayKey(date)] == QuoteValue(a.general.payload)
            && d.requests == [GeneralRequest]
  {
  }

  /** When both endpoints fail, the day's quote is the fallback. */
  lemma DailyFallsBack(store: Store, date: Date, pick: BiblePick, now: nat)
    requires !HasTruthy(store, TodayKey(date))
    ensures DailyQuote(store, date, Attempt(pick, now, BibleFailed, GeneralFailed)).value
            == QuoteValue(FallbackQuote(now))
  {
  }

  // ---------------------------------------------------------------------------------------
  // A random quote

  /** The result of `getRandomQuote`: the quote (`None` when the error propagates), the
      store after the call, and the requests made. */
  datatype Random = Random(quote: Option<Quote>, store: Store, requests: seq<Request>)

  /** `getRandomQuote`: fetch from the preferred source regardless of today's memo and
      remember the quote; a failure leaves the store as it was. */
  function RandomQuote(store: Store, a: Attempt): (r: Random)
    ensures r.quote == FetchForSource(store, a).quote
    ensures r.quote.None? ==> r.store == store
    ensures r.quote.Some? ==> r.store == AddToCachedQuotes(store, r.quote.value)
    ensures QuoteSource(r.store) == QuoteSource(store)
  {
    var f := FetchForSource(store, a);
    match f.quote
    case None => Random(None, store, f.requests)
    case Some(q) => Random(Some(q), AddToCachedQuotes(store, q), f.requests)
  }

  /** Under the Bible source, an empty Bible answer yields the general quote, not an error. */
  lemma EmptyBibleTextFallsBackToGeneral(store: Store, pick: BiblePick, now: nat, reference: string, payload: Quote)
    requires QuoteSource(store) == TextValue("bible")
    ensures RandomQuote(store, Attempt(pick, now, BibleOk("", reference), GeneralOk(payload))).quote == Some(payload)
  {
  }
}

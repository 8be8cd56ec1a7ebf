/**
 * Quotes, and how they are read out of parsed JSON: the item filter shared by
 * loading from storage and by import, the trimming that import adds, the
 * JSON that saving and export write, and the starter list used when storage
 * holds nothing usable.
 */
module Quotes {
  import opened Wrappers
  import opened Json
  import opened Text
  import opened Seqs

  /** A quote: its text and its free-text category. */
  datatype Quote = Quote(text: string, category: string)

  /** The three quotes used when storage holds no usable list. */
  const StarterQuotes: seq<Quote> := [
    Quote("The best way to get started is to quit talking and begin doing.", "Motivation"),
    Quote("Success is not final, failure is not fatal: It is the courage to continue that counts.", "Inspiration"),
    Quote("In the middle of every difficulty lies opportunity.", "Wisdom")
  ]

  /** `item && typeof item.text === 'string' && typeof item.category === 'string'`. */
  predicate IsQuoteObject(item: Json) {
    item.JObject?
    && "text" in item.fields && item.fields["text"].JString?
    && "category" in item.fields && item.fields["category"].JString?
  }

  function QuoteOf(item: Json): Quote
    requires IsQuoteObject(item)
  {
    Quote(item.fields["text"].str, item.fields["category"].str)
  }

  /** The quote objects among `items`, in order, as they are (no trimming, no deduplication). */
  function ValidItems(items: seq<Json>): (r: seq<Quote>)
    ensures |r| <= |items|
  {
    if items == [] then []
    else (if IsQuoteObject(items[0]) then [QuoteOf(items[0])] else []) + ValidItems(items[1..])
  }

  function TrimQuote(q: Quote): Quote {
    Quote(Trim(q.text), Trim(q.category))
  }

  /** The quotes an import file contributes: the quote objects in order, both fields trimmed. */
  function ImportedQuotes(items: seq<Json>): (r: seq<Quote>)
    ensures |r| == |ValidItems(items)|
  {
    var valid := ValidItems(items);
    seq(|valid|, k requires 0 <= k < |valid| => TrimQuote(valid[k]))
  }

  /** The JSON object `JSON.stringify` writes for a quote. */
  function QuoteJson(q: Quote): (j: Json)
    ensures IsQuoteObject(j) && QuoteOf(j) == q
  {
    JObject(map["text" := JString(q.text), "category" := JString(q.category)])
  }

  /** The value written by saving or exporting: the array of quote objects. */
  function Encode(qs: seq<Quote>): (j: Json)
    ensures j.JArray? && |j.elems| == |qs|
  {
    JArray(seq(|qs|, k requires 0 <= k < |qs| => QuoteJson(qs[k])))
  }

  /** The storage key holds a text that parses to an array. */
  predicate HoldsArray(stored: Option<ParseResult>) {
    stored.Some? && stored.value.Parsed? && stored.value.value.JArray?
  }

  /**
   * The list `loadQuotesFromStorage` ends with: a stored array gives its
   * quote objects; a missing key, a text that does not parse, or a value that
   * is not an array gives the starter quotes.
   */
  function Loaded(stored: Option<ParseResult>): seq<Quote> {
    if HoldsArray(stored) then ValidItems(stored.value.value.elems) else StarterQuotes
  }

  /** The filter distributes over concatenation: it keeps items independently and in order. */
  lemma {:induction false} ValidItemsConcat(a: seq<Json>, b: seq<Json>)
    ensures ValidItems(a + b) == ValidItems(a) + ValidItems(b)
    decreases |a|
  {
    if a == [] {
      assert a + b == b;
    } else {
      var head := if IsQuoteObject(a[0]) then [QuoteOf(a[0])] else [];
      assert (a + b)[0] == a[0];
      assert (a + b)[1..] == a[1..] + b;
      ValidItemsConcat(a[1..], b);
      calc {
        ValidItems(a + b);
        head + ValidItems(a[1..] + b);
        head + (ValidItems(a[1..]) + ValidItems(b));
        (head + ValidItems(a[1..])) + ValidItems(b);
      }
    }
  }

  /** A single item is kept exactly when it is a quote object. */
  lemma ValidItemsSingle(item: Json)
    ensures ValidItems([item]) == if IsQuoteObject(item) then [QuoteOf(item)] else []
  {
    assert [item][1..] == [];
  }

  /** A quote is kept exactly when some item is a quote object carrying it. */
  lemma {:induction false} ValidItemsMembership(items: seq<Json>, q: Quote)
    ensures q in ValidItems(items) <==> exists k :: 0 <= k < |items| && IsQuoteObject(items[k]) && QuoteOf(items[k]) == q
    decreases |items|
  {
    if items != [] {
      ValidItemsMembership(items[1..], q);
      if q in ValidItems(items[1..]) {
        var k :| 0 <= k < |items[1..]| && IsQuoteObject(items[1..][k]) && QuoteOf(items[1..][k]) == q;
        assert items[k + 1] == items[1..][k];
      }
      if exists k :: 0 <= k < |items| && IsQuoteObject(items[k]) && QuoteOf(items[k]) == q {
        var k :| 0 <= k < |items| && IsQuoteObject(items[k]) && QuoteOf(items[k]) == q;
        if k > 0 { assert items[1..][k - 1] == items[k]; }
      }
    }
  }

  /** Every imported quote has both fields trimmed. */
  lemma ImportedAreTrimmed(items: seq<Json>)
    ensures forall q :: q in ImportedQuotes(items) ==> IsTrimmed(q.text) && IsTrimmed(q.category)
  {
    forall q | q in ImportedQuotes(items) ensures IsTrimmed(q.text) && IsTrimmed(q.category) {
      var r := ImportedQuotes(items);
      var k :| 0 <= k < |r| && r[k] == q;
      TrimResult(ValidItems(items)[k].text);
      TrimResult(ValidItems(items)[k].category);
    }
  }

  /** Every object the encoder writes passes the item filter, with its fields intact. */
  lemma {:induction false} ValidItemsOfEncode(qs: seq<Quote>)
    ensures ValidItems(Encode(qs).elems) == qs
    decreases |qs|
  {
    if qs != [] {
      assert Encode(qs).elems[1..] == Encode(qs[1..]).elems;
      ValidItemsOfEncode(qs[1..]);
      assert IsQuoteObject(Encode(qs).elems[0]);
    }
  }

  /** Loading what was saved gives back the same list. */
  lemma LoadAfterSave(qs: seq<Quote>)
    ensures Loaded(Some(Parsed(Encode(qs)))) == qs
  {
    ValidItemsOfEncode(qs);
  }

  /**
   * Importing an exported file into the list it was exported from adds
   * nothing, as long as the list holds only trimmed quotes.
   */
  lemma ExportThenImportAddsNothing(qs: seq<Quote>)
    requires forall q :: q in qs ==> IsTrimmed(q.text) && IsTrimmed(q.category)
    ensures AppendNew(qs, ImportedQuotes(Encode(qs).elems)) == qs
  {
    ImportOfTrimmedEncode(qs);
    AppendNewAllPresent(qs, qs);
  }

  /** Re-reading an encoded list of trimmed quotes as an import gives the same list. */
  lemma ImportOfTrimmedEncode(qs: seq<Quote>)
    requires forall q :: q in qs ==> IsTrimmed(q.text) && IsTrimmed(q.category)
    ensures ImportedQuotes(Encode(qs).elems) == qs
  {
    ValidItemsOfEncode(qs);
    var incoming := ImportedQuotes(Encode(qs).elems);
    assert |incoming| == |qs|;
    forall k | 0 <= k < |qs| ensures incoming[k] == qs[k] {
      assert incoming[k] == TrimQuote(qs[k]);
      assert qs[k] in qs;
      TrimOfTrimmed(qs[k].text);
      TrimOfTrimmed(qs[k].category);
    }
  }

  /** The starter list has no repeated quote. */
  lemma StarterQuotesDistinct()
    ensures NoDuplicates(StarterQuotes) && |StarterQuotes| == 3
  {
  }

  /** The k-th imported quote is the k-th quote object with both fields trimmed. */
  lemma ImportedQuotesAt(items: seq<Json>, k: nat)
    requires k < |ValidItems(items)|
    ensures ImportedQuotes(items)[k] == TrimQuote(ValidItems(items)[k])
  {
  }

  /**
   * A quote is imported exactly when some item is a quote object that reads
   * as that quote once both fields are trimmed.
   */
  lemma ImportedQuotesMembership(items: seq<Json>, q: Quote)
    ensures q in ImportedQuotes(items) <==>
      exists k :: 0 <= k < |items| && IsQuoteObject(items[k]) && TrimQuote(QuoteOf(items[k])) == q
  {
    var valid := ValidItems(items);
    var imported := ImportedQuotes(items);
    if q in imported {
      var j :| 0 <= j < |imported| && imported[j] == q;
      ImportedQuotesAt(items, j);
      assert valid[j] in valid;
      ValidItemsMembership(items, valid[j]);
      var k :| 0 <= k < |items| && IsQuoteObject(items[k]) && QuoteOf(items[k]) == valid[j];
      assert TrimQuote(QuoteOf(items[k])) == q;
    }
    if exists k :: 0 <= k < |items| && IsQuoteObject(items[k]) && TrimQuote(QuoteOf(items[k])) == q {
      var k :| 0 <= k < |items| && IsQuoteObject(items[k]) && TrimQuote(QuoteOf(items[k])) == q;
      ValidItemsMembership(items, QuoteOf(items[k]));
      var j :| 0 <= j < |valid| && valid[j] == QuoteOf(items[k]);
      ImportedQuotesAt(items, j);
      assert imported[j] == q;
    }
  }

  /**
   * Unlike adding through the form, import does not reject a field that is
   * blank: a quote object whose text is only white space becomes a quote with
   * empty text, and likewise for the category.
   */
  lemma ImportKeepsBlankFields(items: seq<Json>, k: nat)
    requires k < |ValidItems(items)|
    ensures AllWhitespace(ValidItems(items)[k].text) ==> ImportedQuotes(items)[k].text == []
    ensures AllWhitespace(ValidItems(items)[k].category) ==> ImportedQuotes(items)[k].category == []
  {
    ImportedQuotesAt(items, k);
    TrimEmptyIffBlank(ValidItems(items)[k].text);
    TrimEmptyIffBlank(ValidItems(items)[k].category);
  }
}

/**
 * The page's quote state: the in-memory list `quotes`, which loading replaces
 * and adding and importing extend in place, and the value kept under the
 * storage key, which every successful change writes back.
 */
module QuoteStore {
  import opened Wrappers
  import opened Json
  import opened Text
  import opened Seqs
  import opened Quotes
  import opened Display

  /** The three endings of the add-quote handler, one per message it shows. */
  datatype AddOutcome = MissingField | AlreadyExists | Added

  /** The endings of the import handler; `Imported` carries the number of quotes added. */
  datatype ImportOutcome = ParseFailed | NotAnArray | NoValidQuotes | Imported(added: nat)

  class QuoteApp {
    /** The in-memory list of quotes. */
    var quotes: seq<Quote>
    /** The value under the storage key: absent, or the outcome of parsing its text. */
    var stored: Option<ParseResult>

    /** Reloading from storage would give back the in-memory list. */
    ghost predicate Persisted()
      reads this
    {
      Loaded(stored) == quotes
    }

    /** The page before initialisation: an empty list, and whatever storage already holds. */
    constructor (storage: Option<ParseResult>)
      ensures quotes == [] && stored == storage
    {
      quotes := [];
      stored := storage;
    }

    /** `saveQuotesToLocalStorage`: writes the list as JSON under the storage key. */
    method Save()
      modifies this`stored
      ensures stored == Some(Parsed(Encode(quotes)))
      ensures Persisted()
    {
      stored := Some(Parsed(Encode(quotes)));
      LoadAfterSave(quotes);
    }

    /**
     * `loadQuotesFromStorage`: a stored array gives its quote objects as they
     * are; anything else gives the starter quotes, which are then saved.
     */
    method LoadFromStorage()
      modifies this
      ensures quotes == Loaded(old(stored))
      ensures stored == if HoldsArray(old(stored)) then old(stored) else Some(Parsed(Encode(StarterQuotes)))
      ensures !HoldsArray(old(stored)) ==> NoDuplicates(quotes)
      ensures Persisted()
    {
      if HoldsArray(stored) {
        quotes := ValidItems(stored.value.value.elems);
      } else {
        quotes := StarterQuotes;
        StarterQuotesDistinct();
        Save();
      }
    }

    /**
     * `addQuote`: trims both fields; rejects a blank field or a quote already
     * in the list, changing nothing; otherwise appends the trimmed quote and saves.
     */
    method AddQuote(textValue: string, categoryValue: string) returns (outcome: AddOutcome)
      modifies this
      ensures var q := Quote(Trim(textValue), Trim(categoryValue));
        outcome == (if q.text == [] || q.category == [] then MissingField
                    else if q in old(quotes) then AlreadyExists
                    else Added)
      ensures outcome == Added ==> quotes == old(quotes) + [Quote(Trim(textValue), Trim(categoryValue))]
      ensures outcome == Added ==> stored == Some(Parsed(Encode(quotes)))
      ensures outcome != Added ==> quotes == old(quotes) && stored == old(stored)
      ensures NoDuplicates(old(quotes)) ==> NoDuplicates(quotes)
      ensures old(Persisted()) ==> Persisted()
    {
      var newText := Trim(textValue);
      var newCategory := Trim(categoryValue);
      if newText == [] || newCategory == [] {
        return MissingField;
      }
      var newQuote := Quote(newText, newCategory);
      if newQuote in quotes {
        return AlreadyExists;
      }
      if NoDuplicates(quotes) {
        AppendAbsentKeepsNoDuplicates(quotes, newQuote);
      }
      quotes := quotes + [newQuote];
      Save();
      outcome := Added;
    }

    /**
     * The load handler of `importFromJsonFile`: a text that does not parse, a
     * root that is not an array, or an array without quote objects changes
     * nothing; otherwise each trimmed incoming quote not yet in the growing
     * list is appended, the number appended is reported, and the list is
     * saved when that number is positive.
     */
    method ImportFromJson(content: ParseResult) returns (outcome: ImportOutcome)
      modifies this
      ensures content.SyntaxError? ==> outcome == ParseFailed
      ensures content.Parsed? && !content.value.JArray? ==> outcome == NotAnArray
      ensures content.Parsed? && content.value.JArray? ==>
        if ImportedQuotes(content.value.elems) == [] then outcome == NoValidQuotes else outcome.Imported?
      ensures outcome.Imported? ==> outcome.added == |quotes| - |old(quotes)|
      ensures !outcome.Imported? ==> quotes == old(quotes) && stored == old(stored)
      ensures outcome.Imported? ==> quotes == AppendNew(old(quotes), ImportedQuotes(content.value.elems))
      ensures outcome.Imported? ==> stored == if outcome.added > 0 then Some(Parsed(Encode(quotes))) else old(stored)
      ensures NoDuplicates(old(quotes)) ==> NoDuplicates(quotes)
      ensures old(Persisted()) ==> Persisted()
    {
      if content.SyntaxError? {
        return ParseFailed;
      }
      if !content.value.JArray? {
        return NotAnArray;
      }
      var valid := ImportedQuotes(content.value.elems);
      if valid == [] {
        return NoValidQuotes;
      }
      ghost var before := quotes;
      var added := MergeIncoming(valid);
      if added > 0 {
        Save();
      } else {
        assert quotes == quotes[..|before|] == before;
      }
      if NoDuplicates(before) {
        AppendNewKeepsNoDuplicates(before, valid);
      }
      outcome := Imported(added);
    }

    /**
     * The `forEach` of the import handler: appends each incoming quote that
     * the growing list does not hold yet, counting the appended ones.
     */
    method MergeIncoming(valid: seq<Quote>) returns (added: nat)
      modifies this`quotes
      ensures quotes == AppendNew(old(quotes), valid)
      ensures added == |quotes| - |old(quotes)|
    {
      added := 0;
      var i := 0;
      while i < |valid|
        invariant 0 <= i <= |valid|
        invariant quotes == AppendNew(old(quotes), valid[..i])
        invariant added == |quotes| - |old(quotes)|
      {
        var inQuote := valid[i];
        ghost var seen := valid[..i + 1];
        assert seen[..|seen| - 1] == valid[..i] && seen[|seen| - 1] == inQuote;
        if inQuote !in quotes {
          quotes := quotes + [inQuote];
          added := added + 1;
        }
        i := i + 1;
      }
      assert valid[..i] == valid;
    }

    /**
     * `showRandomQuote`: nothing when no quote matches the selected category
     * (all quotes when the selection is empty); otherwise a quote at some
     * index of the matching quotes.
     */
    method ShowRandomQuote(selected: string) returns (shown: Option<Quote>)
      ensures shown.None? <==> Filtered(quotes, selected) == []
      ensures shown.Some? ==> shown.value in Filtered(quotes, selected)
      ensures shown.Some? ==> shown.value in quotes && (selected != "" ==> shown.value.category == selected)
    {
      var filtered := Filtered(quotes, selected);
      if |filtered| == 0 {
        return None;
      }
      var idx :| 0 <= idx < |filtered|;
      shown := Some(filtered[idx]);
      FilteredMembership(quotes, selected, filtered[idx]);
    }
  }
}

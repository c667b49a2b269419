/** The page's mutable state and the operations that change it: showing a quote, choosing a
    category, adding a quote, syncing with the server and importing a file. */
module Store {
  import opened Builtins
  import opened Quotes
  import opened Sync
  import opened JsonImport

  class QuoteStore {
    /** The in-memory `quotes` array, in insertion order. */
    var quotes: seq<Quote>
    /** The selected category, or "all". */
    var currentFilter: string
    /** The session-scoped `lastQuoteIndex`: the position, in the filtered view, of the quote
        on display; `None` once the view was found empty. */
    var lastQuoteIndex: Option<nat>
    /** The list the store last wrote to durable storage (`saveQuotes`); empty until the first save. */
    ghost var snapshot: seq<Quote>

    /** The state the script starts from: the sample quotes and the "all" filter. */
    constructor ()
      ensures quotes == DefaultQuotes() && currentFilter == AllCategories
      ensures lastQuoteIndex == None && snapshot == []
      ensures IdsAscending(quotes)
    {
      quotes := DefaultQuotes();
      currentFilter := AllCategories;
      lastQuoteIndex := None;
      snapshot := [];
    }

    /** The quotes the current filter shows: some of the quotes, in their order. */
    function View(): (view: seq<Quote>)
      reads this
      ensures IsSubsequence(view, quotes)
    {
      FilteredInOrder(quotes, currentFilter);
      Filtered(quotes, currentFilter)
    }

    /** `displayQuote(index)`: on an empty view show nothing and forget the stored index;
        otherwise show the quote at the index clamped into the view, and store that index. */
    method DisplayQuote(index: int) returns (shown: Option<Quote>)
      modifies this`lastQuoteIndex
      ensures View() == [] ==> shown == None && lastQuoteIndex == None
      ensures View() != [] ==>
        var i := Clamp(index, |View()|);
        lastQuoteIndex == Some(i) && shown == Some(View()[i])
    {
      var view := Filtered(quotes, currentFilter);
      if |view| == 0 {
        lastQuoteIndex := None;
        return None;
      }
      var validIndex := Clamp(index, |view|);
      shown := Some(view[validIndex]);
      lastQuoteIndex := Some(validIndex);
    }

    /** `showRandomQuote`, with the random draw `Math.floor(Math.random() * length)` passed in
        as `draw`; a draw inside the view is shown as it is. */
    method ShowRandomQuote(draw: int) returns (shown: Option<Quote>)
      modifies this`lastQuoteIndex
      ensures View() == [] ==> shown == None && lastQuoteIndex == None
      ensures View() != [] ==>
        var i := Clamp(draw, |View()|);
        lastQuoteIndex == Some(i) && shown == Some(View()[i])
      ensures 0 <= draw < |View()| ==> lastQuoteIndex == Some(draw) && shown == Some(View()[draw])
    {
      var view := Filtered(quotes, currentFilter);
      if |view| == 0 {
        lastQuoteIndex := None;
        return None;
      }
      shown := DisplayQuote(draw);
    }

    /** `filterQuote`: select a category and show a random quote of it. */
    method FilterQuote(selected: string, draw: int) returns (shown: Option<Quote>)
      modifies this`currentFilter, this`lastQuoteIndex
      ensures currentFilter == selected
      ensures View() == Filtered(quotes, selected)
      ensures View() == [] ==> shown == None && lastQuoteIndex == None
      ensures View() != [] ==>
        var i := Clamp(draw, |View()|);
        lastQuoteIndex == Some(i) && shown == Some(View()[i])
    {
      currentFilter := selected;
      shown := ShowRandomQuote(draw);
    }

    /** `addQuote`: trim both inputs and give up when either is empty; otherwise append a quote
        with the next id, save, switch to "all" and show the new quote. */
    method AddQuote(textInput: string, categoryInput: string) returns (added: Option<Quote>)
      modifies this
      ensures Trim(textInput) == "" || Trim(categoryInput) == "" ==>
        && added == None
        && quotes == old(quotes) && snapshot == old(snapshot)
        && currentFilter == old(currentFilter) && lastQuoteIndex == old(lastQuoteIndex)
      ensures Trim(textInput) != "" && Trim(categoryInput) != "" ==>
        && added == Some(Quote(MaxId(old(quotes)) + 1, Trim(textInput), Trim(categoryInput)))
        && quotes == old(quotes) + [added.value]
        && snapshot == quotes
        && currentFilter == AllCategories
        && lastQuoteIndex == Some(|quotes| - 1)
      ensures added.Some? ==> forall q :: q in old(quotes) ==> q.id < added.value.id
      ensures old(IdsAscending(quotes)) ==> IdsAscending(quotes)
    {
      var text := Trim(textInput);
      var category := Trim(categoryInput);
      if text == "" || category == "" {
        return None;
      }
      var maxId := if |quotes| > 0 then MaxId(quotes) else 0;
      var q := Quote(maxId + 1, text, category);
      ghost var before := quotes;
      quotes := quotes + [q];
      snapshot := quotes;
      if IdsAscending(before) {
        AppendNextKeepsIdsAscending(before, text, category);
      }
      currentFilter := AllCategories;
      var shown := DisplayQuote(|quotes| - 1);
      added := Some(q);
    }

    /** `syncWithServer`, with the result of `fetchQuotesFromServer` passed in (`None` for a
        failed fetch): overwrite the first local quote of every known id with the server's,
        append the quotes with unknown ids, save, and report the counts. */
    method SyncWithServer(fetched: Option<seq<Quote>>) returns (report: SyncReport)
      modifies this`quotes, this`snapshot
      ensures fetched.None? ==> report == Failed && quotes == old(quotes) && snapshot == old(snapshot)
      ensures fetched.Some? ==>
        && quotes == Merge(old(quotes), fetched.value)
        && snapshot == quotes
        && report == Report(old(quotes), fetched.value)
    {
      if fetched.None? {
        return Failed;
      }
      var serverQuotes := fetched.value;
      var localQuoteIds := Ids(quotes);
      ghost var local := quotes;
      var conflicts := 0;
      var i := 0;
      while i < |serverQuotes|
        invariant 0 <= i <= |serverQuotes|
        invariant quotes == Overwritten(local, serverQuotes[..i])
        invariant conflicts == ConflictCount(localQuoteIds, serverQuotes[..i])
      {
        var serverQuote := serverQuotes[i];
        var localIndex := IndexOfId(quotes, serverQuote.id);
        assert Ids(quotes) == localQuoteIds by {
          SameIdsSameSet(quotes, local);
        }
        ConflictLoopStep(local, localQuoteIds, serverQuotes, i);
        if localIndex != -1 {
          conflicts := conflicts + 1;
          quotes := quotes[localIndex := serverQuote];
        }
        i := i + 1;
      }
      assert serverQuotes[..i] == serverQuotes;
      var newServerQuotes := NewRecords(localQuoteIds, serverQuotes);
      quotes := quotes + newServerQuotes;
      snapshot := quotes;
      if conflicts > 0 || |newServerQuotes| > 0 {
        report := Synced(|newServerQuotes|, conflicts);
      } else {
        report := NoChanges;
      }
    }

    /** `importFromJsonFile` after parsing, with the parsed value passed in (`None` when it is not
        an array) and the random draw of the final `showRandomQuote` as `draw`. */
    method ImportFromJson(parsed: Option<seq<Item>>, draw: int) returns (outcome: ImportOutcome)
      modifies this
      ensures parsed.None? ==> outcome == NotAnArray
      ensures parsed.Some? && ValidItems(parsed.value) == [] ==> outcome == NoValidQuotes
      ensures !outcome.Imported? ==>
        && quotes == old(quotes) && snapshot == old(snapshot)
        && currentFilter == old(currentFilter) && lastQuoteIndex == old(lastQuoteIndex)
      ensures parsed.Some? && ValidItems(parsed.value) != [] ==>
        var valid := ValidItems(parsed.value);
        && outcome == Imported(|valid|)
        && |quotes| == |old(quotes)| + |valid|
        && quotes[..|old(quotes)|] == old(quotes)
        && (forall k :: 0 <= k < |valid| ==>
              quotes[|old(quotes)| + k] == ImportedQuote(valid[k], MaxId(old(quotes)), k))
        && snapshot == quotes
        && currentFilter == AllCategories
        && lastQuoteIndex == Some(Clamp(draw, |quotes|))
    {
      if parsed.None? {
        return NotAnArray;
      }
      var validQuotes := ValidItems(parsed.value);
      if |validQuotes| == 0 {
        return NoValidQuotes;
      }
      var maxId := if |quotes| > 0 then MaxId(quotes) else 0;
      var filled: seq<Quote> := [];
      var i := 0;
      while i < |validQuotes|
        invariant 0 <= i <= |validQuotes|
        invariant |filled| == i
        invariant forall k :: 0 <= k < i ==> filled[k] == ImportedQuote(validQuotes[k], maxId, k)
      {
        var item := validQuotes[i];
        var id := if HasTruthyId(item) then item.id.value else maxId + i + 1;
        filled := filled + [Quote(id, item.text.value, item.category.value)];
        i := i + 1;
      }
      quotes := quotes + filled;
      snapshot := quotes;
      currentFilter := AllCategories;
      var shown := ShowRandomQuote(draw);
      outcome := Imported(|validQuotes|);
    }
  }

  /** Lists with the same ids position by position use the same set of ids. */
  lemma SameIdsSameSet(a: seq<Quote>, b: seq<Quote>)
    requires |a| == |b| && forall k :: 0 <= k < |a| ==> a[k].id == b[k].id
    ensures Ids(a) == Ids(b)
  {
    forall id | id in Ids(a) ensures id in Ids(b) {
      var k :| 0 <= k < |a| && a[k].id == id;
      assert b[k] in b;
    }
    forall id | id in Ids(b) ensures id in Ids(a) {
      var k :| 0 <= k < |b| && b[k].id == id;
      assert a[k] in a;
    }
  }
}

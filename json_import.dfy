/** Importing quotes from a parsed JSON array: keep the entries whose text and category are
    strings, give each entry without a truthy id the id `maxId + index + 1`, and append. */
module JsonImport {
  import opened Builtins
  import opened Quotes

  /** One element of the parsed array. `NotAnObject` stands for `null`, numbers, strings and
      every other value whose `text` and `category` cannot both be strings. For an object,
      `None` in `text` or `category` means that the field is absent or not a string, and
      `None` in `id` means that the field is absent, `null` or `false`, which
      `quote.id || ...` treats alike. Any other `id` that is not an integer has no encoding here. */
  datatype Item = NotAnObject | Object(id: Option<int>, text: Option<string>, category: Option<string>)

  /** What the import reports: the input was not an array, no entry was valid, or how many
      quotes it appended. */
  datatype ImportOutcome = NotAnArray | NoValidQuotes | Imported(count: nat)

  /** `quote && typeof quote.text === 'string' && typeof quote.category === 'string'`. */
  predicate IsValid(item: Item) {
    item.Object? && item.text.Some? && item.category.Some?
  }

  /** `importedQuotes.filter(...)` with the test above. */
  function ValidItems(items: seq<Item>): (r: seq<Item>)
    ensures |r| <= |items|
    ensures forall k :: 0 <= k < |r| ==> IsValid(r[k])
  {
    Keep(items, IsValid)
  }

  /** Exactly the valid entries are kept, each as often as it occurs, in their order. */
  lemma ValidItemsExactly(items: seq<Item>, item: Item)
    ensures multiset(ValidItems(items))[item] == if IsValid(item) then multiset(items)[item] else 0
    ensures IsSubsequence(ValidItems(items), items)
  {
    KeepCount(items, IsValid, item);
    KeepSubsequence(items, IsValid);
  }

  /** JavaScript truthiness of the entry's `id`: absent and 0 are falsy. */
  predicate HasTruthyId(item: Item) {
    item.Object? && item.id.Some? && item.id.value != 0
  }

  /** The quote that valid entry number `index` becomes: `quote.id = quote.id || maxId + index + 1`. */
  function ImportedQuote(item: Item, maxId: int, index: nat): (q: Quote)
    requires IsValid(item)
    ensures q.text == item.text.value && q.category == item.category.value
    ensures HasTruthyId(item) ==> q.id == item.id.value
    ensures !HasTruthyId(item) ==> maxId + index < q.id
  {
    Quote(if HasTruthyId(item) then item.id.value else maxId + index + 1, item.text.value, item.category.value)
  }

  /** The ids given to entries without one are larger than every existing id and
      increase with the position among the valid entries, so they are pairwise distinct. */
  lemma AssignedIdsAreFresh(existing: seq<Quote>, valid: seq<Item>, j: nat, k: nat)
    requires forall i :: 0 <= i < |valid| ==> IsValid(valid[i])
    requires j < k < |valid| && !HasTruthyId(valid[j]) && !HasTruthyId(valid[k])
    ensures forall q :: q in existing ==> q.id < ImportedQuote(valid[j], MaxId(existing), j).id
    ensures ImportedQuote(valid[j], MaxId(existing), j).id < ImportedQuote(valid[k], MaxId(existing), k).id
  {
  }

  /** An entry that brings its own id keeps it, so an import can repeat an id: after
      [5] an entry without id gets 6, and an entry with id 6 keeps 6. */
  lemma ImportMayRepeatIds()
    ensures var existing := [Quote(5, "a", "b")];
      var valid := [Object(None, Some("c"), Some("d")), Object(Some(6), Some("e"), Some("f"))];
      ImportedQuote(valid[0], MaxId(existing), 0).id == ImportedQuote(valid[1], MaxId(existing), 1).id
  {
  }

  /** `[{text: "X", category: "Y"}, {bad: 1}]` has exactly one valid entry. */
  lemma OneValidOfTwo()
    ensures var good := Object(None, Some("X"), Some("Y"));
      ValidItems([good, Object(None, None, None)]) == [good]
  {
    var good := Object(None, Some("X"), Some("Y"));
    var items := [good, Object(None, None, None)];
    assert items[1..][1..] == [];
    assert Keep(items[1..], IsValid) == [];
  }
}

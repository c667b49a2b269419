/** The quote record and the read-only computations over a list of quotes:
    the next id, the lookup of an id, the filtered view, the clamp of a view index
    and the sorted category listing. */
module Quotes {
  import opened Builtins

  datatype Quote = Quote(id: int, text: string, category: string)

  /** The filter value that selects every quote. */
  const AllCategories: string := "all"

  /** The sample quotes the page starts with when nothing was stored. */
  function DefaultQuotes(): (qs: seq<Quote>)
    ensures |qs| == 5 && IdsAscending(qs)
  {
    [ Quote(1, "The only way to do great work is to love what you do.", "Inspiration"),
      Quote(2, "Life is what happens when you're busy making other plans.", "Life"),
      Quote(3, "The future belongs to those who believe in the beauty of their dreams.", "Dreams"),
      Quote(4, "In the end, we will remember not the words of our enemies, but the silence of our friends.", "Friendship"),
      Quote(5, "The only impossible journey is the one you never begin.", "Motivation") ]
  }

  /** The set of ids in use (the `new Set(quotes.map(q => q.id))` of the sync). */
  function Ids(qs: seq<Quote>): set<int> {
    set q | q in qs :: q.id
  }

  // ---------------------------------------------------------------------------
  // Ids
  // ---------------------------------------------------------------------------

  /** `quotes.length > 0 ? Math.max(...quotes.map(q => q.id)) : 0`. */
  function MaxId(qs: seq<Quote>): (m: int)
    ensures forall k :: 0 <= k < |qs| ==> qs[k].id <= m
    ensures qs != [] ==> exists k :: 0 <= k < |qs| && qs[k].id == m
    ensures qs == [] ==> m == 0
  {
    if qs == [] then 0
    else if |qs| == 1 then qs[0].id
    else
      var m := MaxId(qs[..|qs| - 1]);
      if qs[|qs| - 1].id > m then qs[|qs| - 1].id else m
  }

  /** The id a new quote receives is used by no quote yet. */
  lemma NextIdIsFresh(qs: seq<Quote>)
    ensures MaxId(qs) + 1 !in Ids(qs)
    ensures forall q :: q in qs ==> q.id < MaxId(qs) + 1
  {
  }

  /** `quotes.findIndex(q => q.id === id)`: the first position holding `id`, or -1. */
  function IndexOfId(qs: seq<Quote>, id: int): (r: int)
    ensures -1 <= r < |qs|
    ensures r == -1 <==> id !in Ids(qs)
    ensures r >= 0 ==> qs[r].id == id && forall k :: 0 <= k < r ==> qs[k].id != id
  {
    if qs == [] then -1
    else if qs[0].id == id then 0
    else
      var r := IndexOfId(qs[1..], id);
      assert forall q :: q in qs ==> q == qs[0] || q in qs[1..];
      if r == -1 then -1 else r + 1
  }

  /** `findIndex` looks only at ids, so two lists with the same ids position by position
      give the same answer. */
  lemma {:induction false} IndexOfIdSameIds(a: seq<Quote>, b: seq<Quote>, id: int)
    requires |a| == |b| && forall k :: 0 <= k < |a| ==> a[k].id == b[k].id
    ensures IndexOfId(a, id) == IndexOfId(b, id)
  {
    if a != [] && a[0].id != id {
      IndexOfIdSameIds(a[1..], b[1..], id);
    }
  }

  /** Strictly increasing ids, as a run of additions produces them. */
  ghost predicate IdsAscending(qs: seq<Quote>) {
    forall i, j :: 0 <= i < j < |qs| ==> qs[i].id < qs[j].id
  }

  /** Appending a quote with the next id keeps the ids strictly increasing. */
  lemma AppendNextKeepsIdsAscending(qs: seq<Quote>, text: string, category: string)
    requires IdsAscending(qs)
    ensures IdsAscending(qs + [Quote(MaxId(qs) + 1, text, category)])
  {
  }

  /** Strictly increasing ids are pairwise distinct. */
  lemma AscendingIdsAreUnique(qs: seq<Quote>)
    requires IdsAscending(qs)
    ensures forall i, j :: 0 <= i < |qs| && 0 <= j < |qs| && qs[i].id == qs[j].id ==> i == j
  {
  }

  // ---------------------------------------------------------------------------
  // The filtered view
  // ---------------------------------------------------------------------------

  /** The predicate of `quotes.filter(quote => quote.category === c)`. */
  function InCategory(c: string): Quote -> bool {
    (q: Quote) => q.category == c
  }

  /** `getFilteredQuotes`: every quote for "all", otherwise those whose category is the filter,
      compared exactly (untrimmed, case-sensitive). */
  function Filtered(qs: seq<Quote>, filter: string): (r: seq<Quote>)
    ensures filter == AllCategories ==> r == qs
    ensures filter != AllCategories ==> forall k :: 0 <= k < |r| ==> r[k].category == filter
  {
    if filter == AllCategories then qs else Keep(qs, InCategory(filter))
  }

  /** The view holds exactly the matching quotes, each as often as the store does. */
  lemma FilteredExactly(qs: seq<Quote>, filter: string, q: Quote)
    requires filter != AllCategories
    ensures multiset(Filtered(qs, filter))[q] == if q.category == filter then multiset(qs)[q] else 0
  {
    KeepCount(qs, InCategory(filter), q);
  }

  /** The view keeps the store's order. */
  lemma FilteredInOrder(qs: seq<Quote>, filter: string)
    ensures IsSubsequence(Filtered(qs, filter), qs)
  {
    if filter == AllCategories {
      SubsequenceOfItself(qs);
    } else {
      KeepSubsequence(qs, InCategory(filter));
    }
  }

  lemma {:induction false} SubsequenceOfItself<T>(s: seq<T>)
    ensures IsSubsequence(s, s)
  {
    if s != [] {
      SubsequenceOfItself(s[1..]);
    }
  }

  /** Appending quotes appends their matching part to the view. */
  lemma FilteredAppend(qs: seq<Quote>, more: seq<Quote>, filter: string)
    ensures Filtered(qs + more, filter) == Filtered(qs, filter) + Filtered(more, filter)
  {
    if filter != AllCategories {
      KeepConcat(qs, more, InCategory(filter));
    }
  }

  // ---------------------------------------------------------------------------
  // Clamping the index of the displayed quote
  // ---------------------------------------------------------------------------

  /** `Math.max(0, Math.min(index, len - 1))` for a non-empty view of length `len`. */
  function Clamp(index: int, len: nat): (r: nat)
    requires len > 0
    ensures r < len
    ensures 0 <= index < len ==> r == index
    ensures index < 0 ==> r == 0
    ensures index >= len ==> r == len - 1
  {
    var upper := if index < len - 1 then index else len - 1;
    if 0 > upper then 0 else upper
  }

  // ---------------------------------------------------------------------------
  // The category listing
  // ---------------------------------------------------------------------------

  /** `quotes.map(q => q.category.trim())`. */
  function TrimmedCategories(qs: seq<Quote>): (ts: seq<string>)
    ensures |ts| == |qs|
    ensures forall k :: 0 <= k < |qs| ==> ts[k] == Trim(qs[k].category)
  {
    seq(|qs|, k requires 0 <= k < |qs| => Trim(qs[k].category))
  }

  /** The distinct trimmed, non-empty categories of the quotes. */
  function CategorySet(qs: seq<Quote>): set<string> {
    set c | c in TrimmedCategories(qs) && c != ""
  }

  /** Visiting quote `i` adds its trimmed category, unless that is empty. */
  lemma CategorySetStep(qs: seq<Quote>, i: nat)
    requires i < |qs|
    ensures var c := Trim(qs[i].category);
      CategorySet(qs[..i + 1]) == CategorySet(qs[..i]) + if c != "" then {c} else {}
  {
    assert TrimmedCategories(qs[..i + 1]) == TrimmedCategories(qs[..i]) + [Trim(qs[i].category)];
  }

  /** `getUniqueCategories`: collect the trimmed non-empty categories in a set, then sort them. */
  method UniqueCategories(qs: seq<Quote>) returns (cats: seq<string>)
    ensures StrictlyAscending(cats)
    ensures forall c :: c in cats <==> c != "" && exists k :: 0 <= k < |qs| && Trim(qs[k].category) == c
  {
    var seen: set<string> := {};
    var i := 0;
    while i < |qs|
      invariant 0 <= i <= |qs|
      invariant seen == CategorySet(qs[..i])
    {
      var c := Trim(qs[i].category);
      CategorySetStep(qs, i);
      if qs[i].category != "" && c != "" {
        seen := seen + {c};
      }
      i := i + 1;
    }
    assert qs[..i] == qs;
    // Array.from(seen).sort()
    cats := [];
    var rest := seen;
    while rest != {}
      invariant rest <= seen
      invariant StrictlyAscending(cats)
      invariant forall c :: c in cats <==> c in seen && c !in rest
      decreases rest
    {
      var c :| c in rest;
      cats := Insert(cats, c);
      rest := rest - {c};
    }
    TrimmedCategoryOfSome(qs);
  }

  /** A string is in the trimmed list exactly when it is the trimmed category of some quote. */
  lemma TrimmedCategoryOfSome(qs: seq<Quote>)
    ensures forall c :: c in TrimmedCategories(qs) <==> exists k :: 0 <= k < |qs| && Trim(qs[k].category) == c
  {
    forall c | c in TrimmedCategories(qs)
      ensures exists k :: 0 <= k < |qs| && Trim(qs[k].category) == c
    {
      var k :| 0 <= k < |qs| && TrimmedCategories(qs)[k] == c;
    }
  }

  /** When every category is stored trimmed (as the add path stores them), every listed
      category selects a non-empty view. */
  lemma ListedCategoryHasQuotes(qs: seq<Quote>, c: string)
    requires forall k :: 0 <= k < |qs| ==> Trim(qs[k].category) == qs[k].category
    requires c in CategorySet(qs)
    ensures Filtered(qs, c) != []
  {
    if c != AllCategories {
      var k :| 0 <= k < |qs| && TrimmedCategories(qs)[k] == c;
      assert qs[k] in multiset(qs);
      FilteredExactly(qs, c, qs[k]);
    }
  }

  /** The listing trims but the filter does not: a quote stored with category " Life" is listed
      under "Life", and choosing "Life" shows nothing. */
  lemma ListedCategoryMayShowNothing()
    ensures var qs := [Quote(1, "x", " Life")];
      "Life" in CategorySet(qs) && Filtered(qs, "Life") == []
  {
    var qs := [Quote(1, "x", " Life")];
    assert Trim(" Life") == "Life" by {
      VisibleAsciiIsNotWhiteSpace('L');
      VisibleAsciiIsNotWhiteSpace('e');
      assert IsWhiteSpace(' ');
      assert " Life"[0] == ' ' && " Life"[1..] == "Life";
      assert "Life"[0] == 'L' && "Life"[3] == 'e';
      assert LeadingWhiteSpace("Life") == 0;
      assert LeadingWhiteSpace(" Life") == 1;
      assert TrailingWhiteSpace("Life") == 0;
      assert "Life"[..4] == "Life";
    }
    assert TrimmedCategories(qs)[0] == "Life";
    assert Filtered(qs, "Life") == Keep(qs, InCategory("Life"));
    assert qs[1..] == [];
  }
}

/** The server-wins merge of a fetched quote list into the local one, as a specification:
    every remote quote whose id is already used locally overwrites the first local quote
    with that id, in place; the remote quotes whose ids were not used locally are appended
    in remote order. */
module Sync {
  import opened Builtins
  import opened Quotes

  /** What the sync reports: a failed fetch, "no changes", or the two counts. */
  datatype SyncReport = Failed | NoChanges | Synced(added: nat, conflicts: nat)

  /** `quotes[localIndex] = serverQuote` for the first local quote with the server quote's id,
      or nothing when the id is not used. */
  function ReplaceFirst(qs: seq<Quote>, server: Quote): (r: seq<Quote>)
    ensures |r| == |qs|
    ensures forall k :: 0 <= k < |qs| ==> r[k].id == qs[k].id
  {
    var i := IndexOfId(qs, server.id);
    if i == -1 then qs else qs[i := server]
  }

  /** The local list after the conflict loop has visited every quote of `remote`. */
  function Overwritten(local: seq<Quote>, remote: seq<Quote>): (r: seq<Quote>)
    ensures |r| == |local|
    ensures forall k :: 0 <= k < |local| ==> r[k].id == local[k].id
  {
    if remote == [] then local
    else ReplaceFirst(Overwritten(local, remote[..|remote| - 1]), remote[|remote| - 1])
  }

  /** The last quote of `remote` that carries `id`, if any: the one whose data survives. */
  function LastWithId(remote: seq<Quote>, id: int): (r: Option<Quote>)
    ensures r.None? <==> id !in Ids(remote)
    ensures r.Some? ==> r.value.id == id && r.value in remote
    ensures r.Some? ==>
      exists j :: 0 <= j < |remote| && remote[j] == r.value && (forall k :: j < k < |remote| ==> remote[k].id != id)
  {
    if remote == [] then None
    else if remote[|remote| - 1].id == id then Some(remote[|remote| - 1])
    else
      var r := LastWithId(remote[..|remote| - 1], id);
      assert forall q :: q in remote ==> q in remote[..|remote| - 1] || q == remote[|remote| - 1];
      r
  }

  /** `serverQuotes.filter(serverQuote => !localQuoteIds.has(serverQuote.id))`. */
  function NotIn(ids: set<int>): Quote -> bool {
    (q: Quote) => q.id !in ids
  }

  function NewRecords(ids: set<int>, remote: seq<Quote>): (r: seq<Quote>)
    ensures forall k :: 0 <= k < |r| ==> r[k].id !in ids
  {
    Keep(remote, NotIn(ids))
  }

  /** The number of remote quotes whose id `ids` contains: the length of the `conflicts` list. */
  function ConflictCount(ids: set<int>, remote: seq<Quote>): (n: nat)
    ensures n <= |remote|
    ensures (forall k :: 0 <= k < |remote| ==> remote[k].id !in ids) ==> n == 0
  {
    if remote == [] then 0
    else ConflictCount(ids, remote[..|remote| - 1]) + (if remote[|remote| - 1].id in ids then 1 else 0)
  }

  /** The local list after a sync that fetched `remote`. */
  function Merge(local: seq<Quote>, remote: seq<Quote>): (r: seq<Quote>)
    ensures |local| <= |r| <= |local| + |remote|
    ensures forall k :: 0 <= k < |local| ==> r[k].id == local[k].id
    ensures forall k :: |local| <= k < |r| ==> r[k].id !in Ids(local)
  {
    Overwritten(local, remote) + NewRecords(Ids(local), remote)
  }

  /** The status the sync shows: "no changes" only when both counts are zero. */
  function Report(local: seq<Quote>, remote: seq<Quote>): (r: SyncReport)
    ensures r != Failed
    ensures r.Synced? ==> r.added == |Merge(local, remote)| - |local| && r.added + r.conflicts == |remote|
  {
    CountsPartitionRemote(Ids(local), remote);
    var added := |NewRecords(Ids(local), remote)|;
    var conflicts := ConflictCount(Ids(local), remote);
    if conflicts > 0 || added > 0 then Synced(added, conflicts) else NoChanges
  }

  /** One turn of the conflict loop: visiting `remote[i]` overwrites the first local quote with
      its id, if there is one, and counts it as a conflict exactly when its id was in use. */
  lemma ConflictLoopStep(local: seq<Quote>, ids: set<int>, remote: seq<Quote>, i: nat)
    requires i < |remote|
    ensures Overwritten(local, remote[..i + 1]) == ReplaceFirst(Overwritten(local, remote[..i]), remote[i])
    ensures ConflictCount(ids, remote[..i + 1]) ==
      ConflictCount(ids, remote[..i]) + if remote[i].id in ids then 1 else 0
  {
    assert remote[..i + 1][..i] == remote[..i];
  }

  // ---------------------------------------------------------------------------
  // What the merge does to each position
  // ---------------------------------------------------------------------------

  /** Position `k` of the overwritten list: the quote at the first local position of an id
      takes the last remote quote with that id; every other position keeps its local quote. */
  lemma {:induction false} OverwrittenAt(local: seq<Quote>, remote: seq<Quote>, k: nat)
    requires k < |local|
    ensures var last := LastWithId(remote, local[k].id);
      Overwritten(local, remote)[k] ==
        if IndexOfId(local, local[k].id) == k && last.Some? then last.value else local[k]
  {
    if remote != [] {
      var n := |remote| - 1;
      var before := Overwritten(local, remote[..n]);
      OverwrittenAt(local, remote[..n], k);
      IndexOfIdSameIds(before, local, remote[n].id);
      IndexOfIdSameIds(before, local, local[k].id);
    }
  }

  /** A local quote whose id no remote quote carries keeps its value and its position. */
  lemma MergeKeepsUnmatched(local: seq<Quote>, remote: seq<Quote>, k: nat)
    requires k < |local| && local[k].id !in Ids(remote)
    ensures Merge(local, remote)[k] == local[k]
  {
    OverwrittenAt(local, remote, k);
  }

  /** The first local quote with a remote id ends up equal to the last remote quote with that id
      (server wins); later local quotes with the same id are left alone. */
  lemma MergeServerWins(local: seq<Quote>, remote: seq<Quote>, k: nat)
    requires k < |local| && local[k].id in Ids(remote)
    ensures IndexOfId(local, local[k].id) == k ==>
      Merge(local, remote)[k] == LastWithId(remote, local[k].id).value
    ensures IndexOfId(local, local[k].id) != k ==> Merge(local, remote)[k] == local[k]
  {
    OverwrittenAt(local, remote, k);
  }

  /** The merged list is the old list, rewritten in place, followed by exactly the remote
      quotes with unused ids, in remote order. */
  lemma MergeShape(local: seq<Quote>, remote: seq<Quote>)
    ensures |Merge(local, remote)| == |local| + |NewRecords(Ids(local), remote)|
    ensures forall k :: 0 <= k < |local| ==> Merge(local, remote)[k].id == local[k].id
    ensures Merge(local, remote)[|local|..] == NewRecords(Ids(local), remote)
    ensures IsSubsequence(NewRecords(Ids(local), remote), remote)
  {
    KeepSubsequence(remote, NotIn(Ids(local)));
  }

  /** Each remote quote is counted exactly once: as a conflict or as a new record. */
  lemma {:induction false} CountsPartitionRemote(ids: set<int>, remote: seq<Quote>)
    ensures |NewRecords(ids, remote)| + ConflictCount(ids, remote) == |remote|
  {
    if remote != [] {
      var n := |remote| - 1;
      CountsPartitionRemote(ids, remote[..n]);
      assert remote == remote[..n] + [remote[n]];
      KeepConcat(remote[..n], [remote[n]], NotIn(ids));
    }
  }

  /** "No changes" is reported exactly when the server sent no quotes at all, because every
      remote quote counts either as new or as a conflict, equal values or not. */
  lemma NoChangesOnlyForEmptyRemote(local: seq<Quote>, remote: seq<Quote>)
    ensures Report(local, remote) == NoChanges <==> remote == []
    ensures Report(local, remote) != Failed
  {
    CountsPartitionRemote(Ids(local), remote);
  }

  // ---------------------------------------------------------------------------
  // Syncing twice against the same remote list
  // ---------------------------------------------------------------------------

  ghost predicate DistinctIds(qs: seq<Quote>) {
    forall i, j :: 0 <= i < j < |qs| ==> qs[i].id != qs[j].id
  }

  /** With distinct remote ids, the last remote quote with the id of a remote quote is that quote. */
  lemma {:induction false} LastWithIdOfMember(remote: seq<Quote>, k: nat)
    requires DistinctIds(remote) && k < |remote|
    ensures LastWithId(remote, remote[k].id) == Some(remote[k])
  {
    var n := |remote| - 1;
    if k < n {
      LastWithIdOfMember(remote[..n], k);
    }
  }

  /** Once every remote id is used, the next sync adds nothing. */
  lemma {:induction false} NoNewRecordsWhenAllKnown(ids: set<int>, remote: seq<Quote>)
    requires Ids(remote) <= ids
    ensures NewRecords(ids, remote) == []
  {
    if remote != [] {
      assert remote[0] in remote;
      assert Ids(remote[1..]) <= Ids(remote) by {
        forall q | q in remote[1..] ensures q in remote { }
      }
      NoNewRecordsWhenAllKnown(ids, remote[1..]);
    }
  }

  /** Every remote quote counts as a conflict once its id is used. */
  lemma {:induction false} AllConflictsWhenAllKnown(ids: set<int>, remote: seq<Quote>)
    requires Ids(remote) <= ids
    ensures ConflictCount(ids, remote) == |remote|
  {
    if remote != [] {
      var n := |remote| - 1;
      assert Ids(remote[..n]) <= Ids(remote) by {
        forall q | q in remote[..n] ensures q in remote { }
      }
      AllConflictsWhenAllKnown(ids, remote[..n]);
    }
  }

  /** After one sync, every remote quote sits at the first position of its id. */
  lemma MergedHoldsRemoteAtFirstIndex(local: seq<Quote>, remote: seq<Quote>, k: nat)
    requires DistinctIds(remote)
    requires k < |Merge(local, remote)|
    requires IndexOfId(Merge(local, remote), Merge(local, remote)[k].id) == k
    requires Merge(local, remote)[k].id in Ids(remote)
    ensures Merge(local, remote)[k] == LastWithId(remote, Merge(local, remote)[k].id).value
  {
    var merged := Merge(local, remote);
    var over := Overwritten(local, remote);
    var id := merged[k].id;
    MergeShape(local, remote);
    if k < |local| {
      assert merged[k] == over[k];
      IndexOfIdSameIds(merged[..|local|], local, id);
      FirstIndexInPrefix(merged, |local|, id);
      OverwrittenAt(local, remote, k);
    } else {
      var appended := NewRecords(Ids(local), remote);
      var q := appended[k - |local|];
      assert q == merged[k];
      KeepCount(remote, NotIn(Ids(local)), q);
      assert q in multiset(appended);
      var j :| 0 <= j < |remote| && remote[j] == q;
      LastWithIdOfMember(remote, j);
    }
  }

  /** `findIndex` on a list agrees with `findIndex` on a prefix that already holds the id. */
  lemma FirstIndexInPrefix(qs: seq<Quote>, n: nat, id: int)
    requires n <= |qs| && 0 <= IndexOfId(qs, id) < n
    ensures IndexOfId(qs[..n], id) == IndexOfId(qs, id)
  {
    var i := IndexOfId(qs, id);
    assert qs[..n][i] == qs[i];
    var r := IndexOfId(qs[..n], id);
    assert r != -1 by { assert qs[..n][i] in qs[..n]; }
    assert qs[..n][r] == qs[r];
  }

  /** After one sync every remote id is in use. */
  lemma RemoteIdsUsedAfterMerge(local: seq<Quote>, remote: seq<Quote>)
    ensures Ids(remote) <= Ids(Merge(local, remote))
  {
    var once := Merge(local, remote);
    var over := Overwritten(local, remote);
    var appended := NewRecords(Ids(local), remote);
    assert once == over + appended;
    forall q | q in remote ensures q.id in Ids(once) {
      if q.id !in Ids(local) {
        KeepMember(remote, NotIn(Ids(local)), q);
        assert q in once;
      } else {
        var p :| p in local && p.id == q.id;
        var k :| 0 <= k < |local| && local[k] == p;
        assert over[k] in once;
      }
    }
  }

  /** Syncing twice against the same remote list (with distinct ids) leaves the list as the
      first sync left it; the second sync adds nothing and counts every remote quote as a
      conflict. */
  lemma SyncTwiceIsSyncOnce(local: seq<Quote>, remote: seq<Quote>)
    requires DistinctIds(remote)
    ensures Merge(Merge(local, remote), remote) == Merge(local, remote)
    ensures NewRecords(Ids(Merge(local, remote)), remote) == []
    ensures ConflictCount(Ids(Merge(local, remote)), remote) == |remote|
  {
    var once := Merge(local, remote);
    RemoteIdsUsedAfterMerge(local, remote);
    NoNewRecordsWhenAllKnown(Ids(once), remote);
    AllConflictsWhenAllKnown(Ids(once), remote);
    SecondOverwriteKeepsAll(local, remote);
  }

  lemma SecondOverwriteKeepsAll(local: seq<Quote>, remote: seq<Quote>)
    requires DistinctIds(remote)
    ensures Overwritten(Merge(local, remote), remote) == Merge(local, remote)
  {
    var once := Merge(local, remote);
    forall k | 0 <= k < |once| ensures Overwritten(once, remote)[k] == once[k] {
      SecondOverwriteKeeps(local, remote, k);
    }
  }

  lemma SecondOverwriteKeeps(local: seq<Quote>, remote: seq<Quote>, k: nat)
    requires DistinctIds(remote)
    requires k < |Merge(local, remote)|
    ensures Overwritten(Merge(local, remote), remote)[k] == Merge(local, remote)[k]
  {
    var once := Merge(local, remote);
    OverwrittenAt(once, remote, k);
    if IndexOfId(once, once[k].id) == k && once[k].id in Ids(remote) {
      MergedHoldsRemoteAtFirstIndex(local, remote, k);
    }
  }

  /** Without distinct remote ids a second sync can change the list: a remote list that carries
      an unused id twice is appended whole by the first sync, and the second sync then
      overwrites the first copy with the second. */
  lemma RepeatedUnusedIdBreaksIdempotence()
    ensures var r := [Quote(10, "a", "c"), Quote(10, "b", "c")];
      Merge([], r) == r && Merge(Merge([], r), r) == [Quote(10, "b", "c"), Quote(10, "b", "c")]
  {
    var a, b := Quote(10, "a", "c"), Quote(10, "b", "c");
    var r := [a, b];
    assert Keep(r, NotIn({})) == r by {
      assert r[1..][1..] == [];
    }
    assert Ids(r) == {10};
    assert Keep(r, NotIn({10})) == [] by {
      assert r[1..][1..] == [];
    }
    assert r[..1] == [a] && [a][..0] == [];
    assert IndexOfId(r, 10) == 0;
    assert Overwritten(r, [a]) == r;
    assert IndexOfId(r, 10) == 0;
    assert Overwritten(r, r) == [b, b];
  }

  // ---------------------------------------------------------------------------
  // Two small cases
  // ---------------------------------------------------------------------------

  /** A local quote 5 "A" and a remote quote 5 "B": the store ends with "B" and one conflict. */
  lemma ServerWinsOnSharedId()
    ensures var local := [Quote(5, "A", "c")];
      var remote := [Quote(5, "B", "c")];
      Merge(local, remote) == remote && Report(local, remote) == Synced(0, 1)
  {
    var local := [Quote(5, "A", "c")];
    var remote := [Quote(5, "B", "c")];
    assert remote[..0] == [];
    assert IndexOfId(local, 5) == 0;
    assert Ids(local) == {5};
    assert Keep(remote[1..], NotIn({5})) == [];
  }

  /** A remote quote 10 next to a local quote 1: it is appended and counted as new. */
  lemma UnknownIdIsAppended()
    ensures var local := [Quote(1, "A", "c")];
      var remote := [Quote(10, "B", "d")];
      Merge(local, remote) == local + remote && Report(local, remote) == Synced(1, 0)
  {
    var local := [Quote(1, "A", "c")];
    var remote := [Quote(10, "B", "d")];
    assert remote[..0] == [];
    assert IndexOfId(local, 10) == -1 by {
      assert local[1..] == [];
    }
    assert Ids(local) == {1};
    assert Keep(remote[1..], NotIn({1})) == [];
  }
}

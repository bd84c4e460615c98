/** Which rows a listing and a page hold, by their places in the log. */
module EventLogRows {
  import opened Wrappers
  import opened EventLog

  /** What the two criteria ask of an entry. */
  predicate Wanted(f: Filter, e: IrEvent) {
    && (f.room.Some? ==> e.room.Some? && e.room.value == f.room.value)
    && (f.direction.Some? ==> e.direction == f.direction.value)
  }

  /** The positions are those of all wanted entries, newest first. */
  ghost predicate NewestFirst(events: seq<IrEvent>, f: Filter, at: seq<nat>) {
    && (forall i :: 0 <= i < |at| ==> at[i] < |events|)
    && (forall i, j :: 0 <= i < j < |at| ==> at[j] < at[i])
    && (forall k: nat :: k < |events| ==> (k in at <==> Wanted(f, events[k])))
  }

  ghost predicate ListedAt(listing: seq<IrEvent>, events: seq<IrEvent>, at: seq<nat>) {
    |at| == |listing| && forall i :: 0 <= i < |at| ==> at[i] < |events| && listing[i] == events[at[i]]
  }

  lemma NewestFirstStep(older: seq<IrEvent>, e: IrEvent, f: Filter, before: seq<nat>)
    requires NewestFirst(older, f, before)
    ensures Wanted(f, e) ==> NewestFirst(older + [e], f, [|older|] + before)
    ensures !Wanted(f, e) ==> NewestFirst(older + [e], f, before)
  {
  }

  lemma ListedAtStep(older: seq<IrEvent>, e: IrEvent, listing: seq<IrEvent>, before: seq<nat>)
    requires ListedAt(listing, older, before)
    ensures ListedAt(listing, older + [e], before)
    ensures ListedAt([e] + listing, older + [e], [|older|] + before)
  {
  }

  lemma ListingOf(older: seq<IrEvent>, e: IrEvent, f: Filter)
    ensures Listing(older + [e], f) == if Wanted(f, e) then [e] + Listing(older, f) else Listing(older, f)
  {
    assert (older + [e])[..|older|] == older;
  }

  /** A listing holds every wanted entry once, at its own place, newest first, and nothing else. */
  lemma {:induction false} ListsWantedNewestFirst(events: seq<IrEvent>, f: Filter) returns (at: seq<nat>)
    ensures NewestFirst(events, f, at) && ListedAt(Listing(events, f), events, at)
    decreases |events|
  {
    if events == [] {
      at := [];
    } else {
      var older, e := events[..|events| - 1], events[|events| - 1];
      assert events == older + [e];
      at := ListsWantedNewestFirst(older, f);
      at := NextRow(older, e, f, at);
    }
  }

  lemma NextRow(older: seq<IrEvent>, e: IrEvent, f: Filter, before: seq<nat>) returns (at: seq<nat>)
    requires NewestFirst(older, f, before) && ListedAt(Listing(older, f), older, before)
    ensures NewestFirst(older + [e], f, at) && ListedAt(Listing(older + [e], f), older + [e], at)
  {
    NewestFirstStep(older, e, f, before);
    ListedAtStep(older, e, Listing(older, f), before);
    ListingOf(older, e, f);
    at := if Wanted(f, e) then [|older|] + before else before;
  }

  /** Row `i` of a page is row `offset + i` of the listing. */
  lemma PageRow(listing: seq<IrEvent>, limit: nat, offset: nat, i: nat)
    requires i < |Page(listing, limit, offset)|
    ensures offset + i < |listing| && Page(listing, limit, offset)[i] == listing[offset + i]
  {
  }
}

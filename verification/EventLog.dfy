/** The bounded IR event log with its filtered newest-first pages, and the page endpoint on top. */
module EventLog {
  import opened Integers
  import opened Wrappers

  datatype Direction = Inbound | Outbound

  datatype IrEvent = IrEvent(id: string, direction: Direction, room: Option<string>)

  /** Filter criteria; `None` does not restrict. */
  datatype Filter = Filter(room: Option<string>, direction: Option<Direction>)

  predicate Matches(f: Filter, e: IrEvent) {
    (f.room.None? || e.room == f.room) && (f.direction.None? || Some(e.direction) == f.direction)
  }

  // ---------- specification ----------

  /** The last `n` entries, or all of them. */
  function Suffix(s: seq<IrEvent>, n: nat): seq<IrEvent> {
    if |s| <= n then s else s[|s| - n..]
  }

  /** The matching entries, newest first. */
  function Listing(events: seq<IrEvent>, f: Filter): seq<IrEvent> {
    if events == [] then []
    else
      var last := |events| - 1;
      (if Matches(f, events[last]) then [events[last]] else []) + Listing(events[..last], f)
  }

  function Drop(s: seq<IrEvent>, n: nat): seq<IrEvent> {
    if |s| <= n then [] else s[n..]
  }

  function Take(s: seq<IrEvent>, n: nat): seq<IrEvent> {
    if |s| <= n then s else s[..n]
  }

  /** A page: `limit` rows after the first `offset`. */
  function Page(listing: seq<IrEvent>, limit: nat, offset: nat): seq<IrEvent> {
    Take(Drop(listing, offset), limit)
  }

  lemma ListingStep(events: seq<IrEvent>, f: Filter, i: nat)
    requires i < |events|
    ensures Listing(events[..i + 1], f) ==
      (if Matches(f, events[i]) then [events[i]] else []) + Listing(events[..i], f)
    ensures !Matches(f, events[i]) ==> Listing(events[..i + 1], f) == Listing(events[..i], f)
  {
    assert events[..i + 1][..i] == events[..i];
  }

  /** How a page is filled from a listing whose first row is `e`. */
  lemma PageStep(done: seq<IrEvent>, e: IrEvent, rest: seq<IrEvent>, limit: nat, offset: nat)
    requires limit > 0
    ensures done + Page([e] + rest, limit, offset) ==
      if offset > 0 then done + Page(rest, limit, offset - 1) else done + [e] + Page(rest, limit - 1, 0)
  {
    var s := [e] + rest;
    if offset > 0 {
      assert Drop(s, offset) == Drop(rest, offset - 1);
    } else {
      assert Drop(s, 0) == s && Drop(rest, 0) == rest;
      assert Take(s, limit) == [e] + Take(rest, limit - 1);
    }
  }

  lemma PageEnds(done: seq<IrEvent>, rest: seq<IrEvent>, limit: nat, offset: nat)
    requires rest == [] || (limit == 0 && offset == 0)
    ensures done + Page(rest, limit, offset) == done
  {
    assert done + [] == done;
  }

  /** The page still to be filled from the `i` oldest entries, after the rows already yielded. */
  function Pending(page: seq<IrEvent>, events: seq<IrEvent>, f: Filter, i: nat, limit: nat, offset: nat): seq<IrEvent>
    requires i <= |events|
  {
    page + Page(Listing(events[..i], f), limit, offset)
  }

  lemma RowStep(page: seq<IrEvent>, events: seq<IrEvent>, f: Filter, i: nat, limit: nat, offset: nat)
    requires i < |events| && limit > 0
    ensures Pending(page, events, f, i + 1, limit, offset) ==
      if !Matches(f, events[i]) then Pending(page, events, f, i, limit, offset)
      else if offset > 0 then Pending(page, events, f, i, limit, offset - 1)
      else Pending(page + [events[i]], events, f, i, limit - 1, 0)
  {
    ListingStep(events, f, i);
    PageStep(page, events[i], Listing(events[..i], f), limit, offset);
  }

  /** The iterator's loop over the reversed log. The limit is tested after a row was yielded, so a
      limit of zero or less still yields one row. */
  method IterRows(events: seq<IrEvent>, f: Filter, limit: int, offset: int) returns (page: seq<IrEvent>)
    ensures page == Page(Listing(events, f), Max(1, limit), Max(0, offset))
  {
    var cap, skip := Max(0, limit), Max(0, offset);
    var yielded, skipped := 0, 0;
    page := [];
    var i := |events|;
    ghost var left: nat, ahead: nat := Max(1, limit), skip;
    ghost var goal := Page(Listing(events, f), left, ahead);
    assert events[..i] == events && [] + goal == goal;
    while i > 0
      invariant 0 <= i <= |events|
      invariant left > 0 && left + yielded == Max(1, limit) && ahead + skipped == skip
      invariant Pending(page, events, f, i, left, ahead) == goal
    {
      i := i - 1;
      var ev := events[i];
      RowStep(page, events, f, i, left, ahead);
      if f.room.Some? && ev.room != f.room {
        continue;
      }
      if f.direction.Some? && Some(ev.direction) != f.direction {
        continue;
      }
      if skipped < skip {
        skipped, ahead := skipped + 1, ahead - 1;
        continue;
      }
      page := page + [ev];
      yielded, left := yielded + 1, left - 1;
      if yielded >= cap {
        break;
      }
    }
    PageEnds(page, Listing(events[..i], f), left, ahead);
  }

  lemma PageSize(listing: seq<IrEvent>, limit: nat, offset: nat)
    ensures |Page(listing, limit, offset)| == Min(limit, Max(0, |listing| - offset))
  {
  }

  /** The documented bound, at most `limit` rows, holds exactly for limits from one on, or when no
      matching row is left behind the offset. */
  lemma AtMostLimitRows(events: seq<IrEvent>, f: Filter, limit: int, offset: int)
    ensures |Page(Listing(events, f), Max(1, limit), Max(0, offset))| <= Max(0, limit) <==>
            limit >= 1 || |Listing(events, f)| <= Max(0, offset)
  {
    PageSize(Listing(events, f), Max(1, limit), Max(0, offset));
  }

  /** An input that breaks it: one matching row, limit and offset zero. */
  lemma LimitZeroYieldsOneRow(e: IrEvent, f: Filter)
    requires f == Filter(None, None)
    ensures Page(Listing([e], f), Max(1, 0), Max(0, 0)) == [e]
  {
    assert [e][..0] == [];
    assert Listing([e], f) == [e] + Listing([], f);
  }

  // ---------- the log object ----------

  class IrEventLog {
    const maxEvents: nat
    var events: seq<IrEvent>
    /** Everything ever appended. */
    ghost var history: seq<IrEvent>

    ghost predicate Valid()
      reads this
    {
      maxEvents >= 1 && events == Suffix(history, maxEvents)
    }

    constructor (max: int)
      ensures Valid() && history == [] && maxEvents == Max(1, max)
    {
      maxEvents := Max(1, max);
      events, history := [], [];
    }

    /** Append, evicting from the old end; the log stays the last `maxEvents` of the full history. */
    method Append(event: IrEvent)
      requires Valid()
      modifies this
      ensures Valid() && history == old(history) + [event]
    {
      events := events + [event];
      var overflow := |events| - maxEvents;
      if overflow > 0 {
        events := events[overflow..];
      }
      history := history + [event];
    }

    /** The newest-first iterator, run to its end. */
    method IterEvents(f: Filter, limit: int, offset: int) returns (page: seq<IrEvent>)
      requires Valid()
      ensures page == Page(Listing(events, f), Max(1, limit), Max(0, offset))
    {
      page := IterRows(events, f, limit, offset);
    }

    /** The endpoint's two reads: a page, and a one-row peek behind it. */
    method GetPage(f: Filter, limit: int, offset: int) returns (page: seq<IrEvent>, hasMore: bool)
      requires Valid() && 1 <= limit <= 200 && 0 <= offset
      ensures page == Page(Listing(events, f), limit, offset)
      ensures hasMore <==> offset + limit < |Listing(events, f)|
    {
      page := IterEvents(f, limit, offset);
      var peek := IterEvents(f, 1, offset + limit);
      hasMore := peek != [];
    }
  }
}

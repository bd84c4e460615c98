/** Reading the whole log page by page, with and without appends in between. */
module EventLogPages {
  import opened EventLog
  import opened Sequences

  // ---------- a quiet log ----------

  /** The rows a reader collects who starts at an offset and goes on while there is more. */
  function ReadOn(listing: seq<IrEvent>, limit: nat, offset: nat): seq<IrEvent>
    requires limit >= 1
    decreases |listing| - offset
  {
    if offset + limit < |listing|
    then Page(listing, limit, offset) + ReadOn(listing, limit, offset + limit)
    else Page(listing, limit, offset)
  }

  lemma {:induction false} PagesConcatenateFrom(listing: seq<IrEvent>, limit: nat, offset: nat)
    requires limit >= 1
    ensures ReadOn(listing, limit, offset) == Drop(listing, offset)
    decreases |listing| - offset
  {
    if offset + limit < |listing| {
      var page, later := Page(listing, limit, offset), ReadOn(listing, limit, offset + limit);
      PagesConcatenateFrom(listing, limit, offset + limit);
      PageThenRest(listing, limit, offset);
      assert ReadOn(listing, limit, offset) == page + later;
    } else {
      LastPage(listing, limit, offset);
    }
  }

  /** Successive pages, read while `has_more` is reported, concatenate to the whole filtered listing. */
  lemma PagesConcatenate(listing: seq<IrEvent>, limit: nat)
    requires limit >= 1
    ensures ReadOn(listing, limit, 0) == listing
  {
    PagesConcatenateFrom(listing, limit, 0);
    assert Drop(listing, 0) == listing;
  }

  lemma LastPage(listing: seq<IrEvent>, limit: nat, offset: nat)
    requires offset + limit >= |listing|
    ensures Page(listing, limit, offset) == Drop(listing, offset)
  {
  }

  lemma PageThenRest(listing: seq<IrEvent>, limit: nat, offset: nat)
    requires offset + limit < |listing|
    ensures Page(listing, limit, offset) + Drop(listing, offset + limit) == Drop(listing, offset)
  {
    assert Page(listing, limit, offset) == listing[offset..offset + limit];
  }

  // ---------- appends and eviction ----------

  lemma {:induction false} ListingAppend(a: seq<IrEvent>, b: seq<IrEvent>, f: Filter)
    ensures Listing(a + b, f) == Listing(b, f) + Listing(a, f)
    decreases |b|
  {
    if b == [] {
      assert a + b == a;
    } else {
      var last := |b| - 1;
      assert (a + b)[..|a + b| - 1] == a + b[..last];
      ListingAppend(a, b[..last], f);
      Reassociate(if Matches(f, b[last]) then [b[last]] else [], Listing(b[..last], f), Listing(a, f));
    }
  }

  /** Appending and evicting entry by entry or all at once leaves the same suffix. */
  lemma SuffixOfAppend(history: seq<IrEvent>, batch: seq<IrEvent>, max: nat)
    ensures Suffix(history + batch, max) == Suffix(Suffix(history, max) + batch, max)
  {
  }

  /** The log's contents after appending entries one at a time. */
  function AppendEach(events: seq<IrEvent>, batch: seq<IrEvent>, max: nat): seq<IrEvent>
    decreases |batch|
  {
    if batch == [] then events else AppendEach(Suffix(events + [batch[0]], max), batch[1..], max)
  }

  /** After any sequence of appends the log is the last `max` entries of the full history. */
  lemma {:induction false} LogIsSuffixOfHistory(history: seq<IrEvent>, batch: seq<IrEvent>, max: nat)
    ensures AppendEach(Suffix(history, max), batch, max) == Suffix(history + batch, max)
    decreases |batch|
  {
    if batch == [] {
      assert history + batch == history;
    } else {
      SuffixOfAppend(history, [batch[0]], max);
      LogIsSuffixOfHistory(history + [batch[0]], batch[1..], max);
      assert history + [batch[0]] + batch[1..] == history + batch;
    }
  }

  /** What a reader sees of a log with this history. */
  function Visible(history: seq<IrEvent>, max: nat, f: Filter): seq<IrEvent> {
    Listing(Suffix(history, max), f)
  }

  /** After appends the visible rows are the new matching rows followed by the old ones, cut short at
      the old end. */
  lemma AppendsShiftRows(history: seq<IrEvent>, batch: seq<IrEvent>, max: nat, f: Filter)
    ensures Visible(history + batch, max, f) <= Listing(batch, f) + Visible(history, max, f)
  {
    var kept := Suffix(history, max) + batch;
    var cut := |kept| - |Suffix(kept, max)|;
    SuffixOfAppend(history, batch, max);
    assert kept == kept[..cut] + kept[cut..] && Suffix(kept, max) == kept[cut..];
    ListingAppend(kept[..cut], kept[cut..], f);
    ListingAppend(Suffix(history, max), batch, f);
  }

  // ---------- reading while entries arrive ----------

  /** The rows shown to a reader of successive pages who meets these listings in turn. */
  function Shown(views: seq<seq<IrEvent>>, limit: nat, offset: nat): seq<IrEvent>
    decreases |views|
  {
    if views == [] then [] else Page(views[0], limit, offset) + Shown(views[1..], limit, offset + limit)
  }

  function Last(view: seq<IrEvent>, views: seq<seq<IrEvent>>): seq<IrEvent> {
    if views == [] then view else views[|views| - 1]
  }

  /** The reader stopped because the last page it read reported nothing behind it. */
  predicate Exhausted(view: seq<IrEvent>, views: seq<seq<IrEvent>>, limit: nat, offset: nat)
    decreases |views|
  {
    if views == [] then |view| <= offset else Exhausted(views[0], views[1..], limit, offset + limit)
  }

  /** Each listing is its arrivals followed by the previous listing, cut short at the old end. */
  predicate Evolves(view: seq<IrEvent>, views: seq<seq<IrEvent>>, arrivals: seq<seq<IrEvent>>)
    decreases |views|
  {
    && |views| == |arrivals|
    && (views != [] ==> views[0] <= arrivals[0] + view && Evolves(views[0], views[1..], arrivals[1..]))
  }

  function Total(arrivals: seq<seq<IrEvent>>): nat {
    if arrivals == [] then 0 else |arrivals[0]| + Total(arrivals[1..])
  }

  lemma {:induction false} GrowsAtMostByArrivals(view: seq<IrEvent>, views: seq<seq<IrEvent>>, arrivals: seq<seq<IrEvent>>)
    requires Evolves(view, views, arrivals)
    ensures |Last(view, views)| <= Total(arrivals) + |view|
    decreases |views|
  {
    if views != [] {
      GrowsAtMostByArrivals(views[0], views[1..], arrivals[1..]);
    }
  }

  lemma RowOnPage(listing: seq<IrEvent>, limit: nat, offset: nat, p: nat)
    requires offset <= p < |listing| && p < offset + limit
    ensures |Page(listing, limit, offset)| > p - offset && Page(listing, limit, offset)[p - offset] == listing[p]
  {
    assert Drop(listing, offset)[p - offset] == listing[p];
  }

  /** Where the row at position `p` is when page `k` is read: every arrival moves it one further. */
  function Position(p: nat, arrivals: seq<seq<IrEvent>>, k: nat): nat
    requires k < |arrivals|
    decreases k
  {
    var q := p + |arrivals[0]|;
    if k == 0 then q else Position(q, arrivals[1..], k - 1)
  }

  /** The offset page `k` is read at. */
  function Start(limit: nat, offset: nat, k: nat): nat
    decreases k
  {
    if k == 0 then offset else Start(limit, offset + limit, k - 1)
  }

  /** The page at an offset shows the row listed at position `q`. */
  predicate PageShows(view: seq<IrEvent>, limit: nat, offset: nat, q: nat, row: IrEvent) {
    && offset <= q < |view| && view[q] == row
    && q - offset < |Page(view, limit, offset)| && Page(view, limit, offset)[q - offset] == row
  }

  /** Page `k` shows the row that was at position `p`, where it is listed now. */
  ghost predicate ShowsRow(
      views: seq<seq<IrEvent>>, arrivals: seq<seq<IrEvent>>, limit: nat, offset: nat, p: nat, row: IrEvent, k: nat)
  {
    k < |views| == |arrivals| && PageShows(views[k], limit, Start(limit, offset, k), Position(p, arrivals, k), row)
  }

  lemma ShownNow(views: seq<seq<IrEvent>>, arrivals: seq<seq<IrEvent>>, limit: nat, offset: nat, p: nat, row: IrEvent)
    requires views != [] && |views| == |arrivals|
    requires offset <= p + |arrivals[0]| < offset + limit
    requires p + |arrivals[0]| < |views[0]| && views[0][p + |arrivals[0]|] == row
    ensures ShowsRow(views, arrivals, limit, offset, p, row, 0)
  {
    RowOnPage(views[0], limit, offset, p + |arrivals[0]|);
  }

  lemma ShownLater(
      views: seq<seq<IrEvent>>, arrivals: seq<seq<IrEvent>>, limit: nat, offset: nat, p: nat, row: IrEvent, k: nat)
    requires views != [] && |views| == |arrivals|
    requires ShowsRow(views[1..], arrivals[1..], limit, offset + limit, p + |arrivals[0]|, row, k)
    ensures ShowsRow(views, arrivals, limit, offset, p, row, k + 1)
  {
    assert views[1..][k] == views[k + 1];
  }

  lemma RowMovesOn(view: seq<IrEvent>, views: seq<seq<IrEvent>>, arrivals: seq<seq<IrEvent>>, p: nat)
    requires Evolves(view, views, arrivals) && views != []
    requires p < |view| && p + Total(arrivals) < |Last(view, views)|
    ensures var q := p + |arrivals[0]|;
      && q < |views[0]| && views[0][q] == view[p]
      && q + Total(arrivals[1..]) < |Last(views[0], views[1..])|
  {
    GrowsAtMostByArrivals(views[0], views[1..], arrivals[1..]);
    assert (arrivals[0] + view)[p + |arrivals[0]|] == view[p];
  }

  /** A row not yet shown that is still listed at the end is shown on a later page. */
  lemma {:induction false} SurvivingRowIsShown(
      view: seq<IrEvent>, views: seq<seq<IrEvent>>, arrivals: seq<seq<IrEvent>>, limit: nat, offset: nat, p: nat)
    returns (k: nat)
    requires Evolves(view, views, arrivals) && Exhausted(view, views, limit, offset)
    requires offset <= p < |view| && p + Total(arrivals) < |Last(view, views)|
    ensures ShowsRow(views, arrivals, limit, offset, p, view[p], k)
    decreases |views|
  {
    assert views != [];
    RowMovesOn(view, views, arrivals, p);
    var q := p + |arrivals[0]|;
    if q < offset + limit {
      k := 0;
      ShownNow(views, arrivals, limit, offset, p, view[p]);
    } else {
      var later := SurvivingRowIsShown(views[0], views[1..], arrivals[1..], limit, offset + limit, q);
      ShownLater(views, arrivals, limit, offset, p, view[p], later);
      k := later + 1;
    }
  }

  /** What a page holds the reader has been shown. */
  lemma {:induction false} PageIsShown(views: seq<seq<IrEvent>>, limit: nat, offset: nat, k: nat, row: IrEvent)
    requires k < |views| && row in Page(views[k], limit, Start(limit, offset, k))
    ensures row in Shown(views, limit, offset)
    decreases k
  {
    var first, rest := views[0], views[1..];
    if k > 0 {
      assert rest[k - 1] == views[k];
      PageIsShown(rest, limit, offset + limit, k - 1, row);
    }
    InEitherPart(row, Page(first, limit, offset), Shown(rest, limit, offset + limit));
  }

  lemma InEitherPart(e: IrEvent, a: seq<IrEvent>, b: seq<IrEvent>)
    requires e in a || e in b
    ensures e in a + b
  {
  }

  /** The listings met when a batch of entries is appended before each page read. */
  function Views(history: seq<IrEvent>, batches: seq<seq<IrEvent>>, max: nat, f: Filter): (r: seq<seq<IrEvent>>)
    ensures |r| == |batches|
    decreases |batches|
  {
    if batches == [] then []
    else [Visible(history + batches[0], max, f)] + Views(history + batches[0], batches[1..], max, f)
  }

  function Arrivals(batches: seq<seq<IrEvent>>, f: Filter): (r: seq<seq<IrEvent>>)
    ensures |r| == |batches|
  {
    if batches == [] then [] else [Listing(batches[0], f)] + Arrivals(batches[1..], f)
  }

  lemma {:induction false} LogEvolves(history: seq<IrEvent>, batches: seq<seq<IrEvent>>, max: nat, f: Filter)
    ensures Evolves(Visible(history, max, f), Views(history, batches, max, f), Arrivals(batches, f))
    decreases |batches|
  {
    if batches != [] {
      AppendsShiftRows(history, batches[0], max, f);
      LogEvolves(history + batches[0], batches[1..], max, f);
      assert Views(history, batches, max, f)[1..] == Views(history + batches[0], batches[1..], max, f);
      assert Arrivals(batches, f)[1..] == Arrivals(batches[1..], f);
    }
  }

  /** Appends between page reads may repeat rows but never skip one: whatever arrives and is evicted
      in between, a reader who reads until nothing is left has been shown every row that was in the
      log at the start and still is at the end, at that row's own place on one of the pages. */
  lemma NoSurvivingRowSkipped(
      history: seq<IrEvent>, batches: seq<seq<IrEvent>>, max: nat, f: Filter, limit: nat, p: nat)
    returns (k: nat)
    requires p < |Visible(history, max, f)|
    requires Exhausted(Visible(history, max, f), Views(history, batches, max, f), limit, 0)
    requires p + Total(Arrivals(batches, f)) < |Last(Visible(history, max, f), Views(history, batches, max, f))|
    ensures ShowsRow(Views(history, batches, max, f), Arrivals(batches, f), limit, 0, p, Visible(history, max, f)[p], k)
    ensures Visible(history, max, f)[p] in Shown(Views(history, batches, max, f), limit, 0)
  {
    var view, views, arrivals := Visible(history, max, f), Views(history, batches, max, f), Arrivals(batches, f);
    LogEvolves(history, batches, max, f);
    k := SurvivingRowIsShown(view, views, arrivals, limit, 0, p);
    PageIsShown(views, limit, 0, k, view[p]);
  }
}

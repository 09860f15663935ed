/**
 The page walk as the program runs it: a `while True` over page numbers around a `for` over
 the entries of the page, with the budget kept in one mutable balance.
 */
module HarvestLoop {
  import opened Wrappers
  import opened Listing
  import opened Harvest

  /** The `for` over one page's entries; returns early where the program breaks off the page or raises. */
  method ProcessEntries(es: seq<Entry>, minPoints: int, replies: seq<string>, l: Ledger) returns (r: PageRun)
    ensures r == RunEntries(es, minPoints, replies, l)
  {
    var points, attempts := l.points, l.attempts;
    var i := 0;
    while i < |es|
      invariant 0 <= i <= |es|
      invariant RunEntries(es[i..], minPoints, replies, Ledger(points, attempts)) == RunEntries(es, minPoints, replies, l)
    {
      var e := es[i];
      ghost var before := Ledger(points, attempts);
      assert es[i..][0] == e && es[i..][1..] == es[i + 1..];
      match Decide(e, points, minPoints) {
        case Pass(_) =>
        case Pause =>
          return PageRun(Ledger(points, attempts), Some(Cooldown));
        case Abort(f) =>
          return PageRun(Ledger(points, attempts), Some(Failed(f)));
        case Submit(cost) =>
          if |attempts| >= |replies| {
            return PageRun(Ledger(points, attempts), Some(Failed(NoReply(e.id))));
          }
          var ok := Accepted(replies[|attempts|]);
          attempts := attempts + [Attempt(e, cost, ok)];
          if ok {
            points := points - cost;
          }
          assert Ledger(points, attempts) == Record(before, Attempt(e, cost, ok));
          assert Step(e, minPoints, replies, before) == PageRun(Ledger(points, attempts), None);
      }
      i := i + 1;
    }
    assert es[i..] == [];
    r := PageRun(Ledger(points, attempts), None);
  }

  /**
   One cycle's page walk from page 1 with the refreshed balance `start`. Where the program
   sleeps and calls `start()` again, this returns the cycle's result with its stop signal.
   */
  method HarvestPages(cfg: Config, pages: seq<Page>, start: nat, replies: seq<string>) returns (r: CycleRun)
    ensures r == Walk(pages, 1, cfg, replies, Ledger(start, []), [])
  {
    var n: nat := 1;
    var ledger := Ledger(start, []);
    var visited: seq<nat> := [];
    while true
      invariant Walk(pages, n, cfg, replies, ledger, visited) == Walk(pages, 1, cfg, replies, Ledger(start, []), [])
      decreases |pages| + 1 - n
    {
      var page := PageAt(pages, n);
      if |page.common| == 0 {
        WalkEnds(pages, n, cfg, replies, ledger, visited);
        return CycleRun(ledger, visited + [n], Exhausted);
      }
      var list := (if cfg.pinned then page.pinned else []) + page.common;
      assert list == EntryList(page, cfg.pinned);
      var run := ProcessEntries(list, cfg.minPoints, replies, ledger);
      WalkGoesOn(pages, n, cfg, replies, ledger, visited);
      if run.signal.Some? {
        return CycleRun(run.ledger, visited + [n], run.signal.value);
      }
      ledger := run.ledger;
      visited := visited + [n];
      n := n + 1;
    }
  }
}

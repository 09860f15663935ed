/**
 Properties of the harvest loop that relate several runs: what faded entries, pages after the
 end of the listing and the pinned flag do (and do not) change, and in which order the policy's
 checks happen.
 */
module HarvestProofs {
  import opened Wrappers
  import opened Decimal
  import opened Listing
  import opened Harvest

  /** Entries are processed in order: the second part of a list only runs if the first did not stop the page. */
  lemma {:induction false} RunEntriesAppend(a: seq<Entry>, b: seq<Entry>, minPoints: int, replies: seq<string>, l: Ledger)
    decreases |a|
    ensures var first := RunEntries(a, minPoints, replies, l);
      RunEntries(a + b, minPoints, replies, l) ==
        if first.signal.Some? then first else RunEntries(b, minPoints, replies, first.ledger)
  {
    if |a| == 0 {
      assert a + b == b;
    } else {
      assert (a + b)[0] == a[0] && (a + b)[1..] == a[1..] + b;
      var s := Step(a[0], minPoints, replies, l);
      if s.signal.None? {
        RunEntriesAppend(a[1..], b, minPoints, replies, s.ledger);
      }
    }
  }

  /**
   An eligible entry reached while the page is still running is submitted: the next
   submission after the earlier entries' is for it, at its parsed cost, answered by the next
   reply, and it stays recorded whatever entries follow.
   */
  lemma EligibleEntrySubmitted(pre: seq<Entry>, e: Entry, post: seq<Entry>, minPoints: int, replies: seq<string>, l: Ledger)
    requires RunEntries(pre, minPoints, replies, l).signal.None?
    requires var m := RunEntries(pre, minPoints, replies, l).ledger;
      Eligible(e, m.points, minPoints) && |m.attempts| < |replies|
    ensures var m := RunEntries(pre, minPoints, replies, l).ledger;
      var r := RunEntries(pre + [e] + post, minPoints, replies, l).ledger;
      && |m.attempts| < |r.attempts|
      && r.attempts[|m.attempts|] == Attempt(e, ParseCost(e.costLabel.value).value, Accepted(replies[|m.attempts|]))
  {
    var m := RunEntries(pre, minPoints, replies, l).ledger;
    assert pre + [e] + post == pre + ([e] + post);
    RunEntriesAppend(pre, [e] + post, minPoints, replies, l);
    assert ([e] + post)[0] == e && ([e] + post)[1..] == post;
    var s := Step(e, minPoints, replies, m);
    var r := RunEntries(post, minPoints, replies, s.ledger).ledger;
    assert r.attempts[..|s.ledger.attempts|] == s.ledger.attempts;
    assert r.attempts[|m.attempts|] == r.attempts[..|s.ledger.attempts|][|m.attempts|];
  }

  /** A faded entry, wherever it stands, changes nothing: no submission, no charge, no cooldown. */
  lemma {:induction false} FadedEntryIsInert(a: seq<Entry>, f: Entry, b: seq<Entry>, minPoints: int, replies: seq<string>, l: Ledger)
    requires f.faded
    decreases |a|
    ensures RunEntries(a + [f] + b, minPoints, replies, l) == RunEntries(a + b, minPoints, replies, l)
  {
    if |a| == 0 {
      assert a + [f] + b == [f] + b && ([f] + b)[1..] == b && a + b == b;
    } else {
      assert (a + [f] + b)[0] == a[0] && (a + [f] + b)[1..] == a[1..] + [f] + b;
      assert (a + b)[0] == a[0] && (a + b)[1..] == a[1..] + b;
      var s := Step(a[0], minPoints, replies, l);
      if s.signal.None? {
        FadedEntryIsInert(a[1..], f, b, minPoints, replies, s.ledger);
      }
    }
  }

  /**
   The threshold check precedes the cost check: once the first non-faded entry is reached with
   a balance of zero or under the threshold, the page stops with a cooldown, nothing is
   submitted or charged, and neither that entry's label nor any later entry matters.
   */
  lemma {:induction false} ThresholdStopsPage(faded: seq<Entry>, e: Entry, rest: seq<Entry>, minPoints: int, replies: seq<string>, l: Ledger)
    requires forall i :: 0 <= i < |faded| ==> faded[i].faded
    requires !e.faded && (l.points == 0 || l.points < minPoints)
    decreases |faded|
    ensures RunEntries(faded + [e] + rest, minPoints, replies, l) == PageRun(l, Some(Cooldown))
  {
    var es := faded + [e] + rest;
    if |faded| == 0 {
      assert es[0] == e;
    } else {
      assert es[0] == faded[0] && es[1..] == faded[1..] + [e] + rest;
      ThresholdStopsPage(faded[1..], e, rest, minPoints, replies, l);
    }
  }

  /**
   The walk stops at the first page without non-pinned entries: neither that page's pinned
   entries nor any later page has any effect, as if the listing ended before it.
   */
  lemma {:induction false} WalkIgnoresPagesAfterEmpty(pre: seq<Page>, p: Page, post: seq<Page>, n: nat, cfg: Config,
                                                      replies: seq<string>, l: Ledger, visited: seq<nat>)
    requires |p.common| == 0 && n <= |pre| + 1
    decreases |pre| - n
    ensures Walk(pre + [p] + post, n, cfg, replies, l, visited) == Walk(pre, n, cfg, replies, l, visited)
  {
    var pages := pre + [p] + post;
    if 1 <= n <= |pre| {
      assert PageAt(pages, n) == pre[n - 1] == PageAt(pre, n);
      var page := PageAt(pre, n);
      if |page.common| > 0 {
        var run := RunEntries(EntryList(page, cfg.pinned), cfg.minPoints, replies, l);
        if run.signal.None? {
          WalkIgnoresPagesAfterEmpty(pre, p, post, n + 1, cfg, replies, run.ledger, visited + [n]);
        }
      }
    } else if n == |pre| + 1 {
      assert PageAt(pages, n) == p;
    }
  }

  /** The entries of a page as the walk sees them; a page without non-pinned entries shows none. */
  function Flatten(p: Page, includePinned: bool): (q: Page)
    ensures q.pinned == []
    ensures |q.common| == 0 <==> |p.common| == 0
  {
    if |p.common| == 0 then Page([], []) else Page([], EntryList(p, includePinned))
  }

  function FlattenAll(pages: seq<Page>, includePinned: bool): (r: seq<Page>)
    ensures |r| == |pages|
    ensures forall i :: 0 <= i < |pages| ==> r[i] == Flatten(pages[i], includePinned)
  {
    seq(|pages|, i requires 0 <= i < |pages| => Flatten(pages[i], includePinned))
  }

  /**
   A page contributes exactly its entry list, pinned entries first when the flag is set, and
   only if it has non-pinned entries: the walk over the pages equals the walk over their
   flattened lists with the pinned flag off.
   */
  lemma {:induction false} WalkSeesEntryLists(pages: seq<Page>, n: nat, cfg: Config, replies: seq<string>, l: Ledger, visited: seq<nat>)
    decreases |pages| - n
    ensures Walk(pages, n, cfg, replies, l, visited) ==
            Walk(FlattenAll(pages, cfg.pinned), n, cfg.(pinned := false), replies, l, visited)
  {
    var flat := FlattenAll(pages, cfg.pinned);
    var page := PageAt(pages, n);
    assert PageAt(flat, n) == Flatten(page, cfg.pinned);
    if |page.common| > 0 {
      assert EntryList(PageAt(flat, n), false) == EntryList(page, cfg.pinned);
      var run := RunEntries(EntryList(page, cfg.pinned), cfg.minPoints, replies, l);
      if run.signal.None? {
        WalkSeesEntryLists(pages, n + 1, cfg, replies, run.ledger, visited + [n]);
      }
    }
  }

  /** With the pinned flag off, pinned giveaways are never looked at: only the non-pinned lists matter. */
  lemma PinnedIgnoredWhenOff(pages: seq<Page>, pages': seq<Page>, cfg: Config, replies: seq<string>, l: Ledger)
    requires !cfg.pinned && |pages| == |pages'|
    requires forall i :: 0 <= i < |pages| ==> pages[i].common == pages'[i].common
    ensures Walk(pages, 1, cfg, replies, l, []) == Walk(pages', 1, cfg, replies, l, [])
  {
    WalkSeesEntryLists(pages, 1, cfg, replies, l, []);
    WalkSeesEntryLists(pages', 1, cfg, replies, l, []);
    assert FlattenAll(pages, false) == FlattenAll(pages', false);
  }

  /** The k-th submission of a funded sequence, read at its own position. */
  lemma {:induction false} FundedAt(start: int, minPoints: int, atts: seq<Attempt>, k: nat)
    requires Funded(start, minPoints, atts) && k < |atts|
    decreases |atts|
    ensures var before := start - AcceptedCost(atts[..k]);
      Admissible(atts[k]) && before >= 1 && before >= minPoints && atts[k].cost <= before
  {
    var earlier := atts[..|atts| - 1];
    if k < |atts| - 1 {
      FundedAt(start, minPoints, earlier, k);
      assert earlier[..k] == atts[..k] && earlier[k] == atts[k];
    }
  }

  /** The k-th submission of an answered sequence carries the k-th reply. */
  lemma {:induction false} AnsweredAt(atts: seq<Attempt>, replies: seq<string>, k: nat)
    requires AnsweredBy(atts, replies) && k < |atts|
    decreases |atts|
    ensures k < |replies| && atts[k].accepted == Accepted(replies[k])
  {
    var earlier := atts[..|atts| - 1];
    if k < |atts| - 1 {
      AnsweredAt(earlier, replies, k);
      assert earlier[k] == atts[k];
    }
  }

  /** Every submission made while processing a list of entries is for one of those entries. */
  lemma {:induction false} SubmittedFromList(es: seq<Entry>, minPoints: int, replies: seq<string>, l: Ledger, k: nat)
    requires |l.attempts| <= k < |RunEntries(es, minPoints, replies, l).ledger.attempts|
    decreases |es|
    ensures RunEntries(es, minPoints, replies, l).ledger.attempts[k].entry in es
  {
    var s := Step(es[0], minPoints, replies, l);
    if s.signal.None? {
      var r := RunEntries(es[1..], minPoints, replies, s.ledger);
      ExtendsTrans(l, s.ledger, r.ledger);
      if k < |s.ledger.attempts| {
        assert r.ledger.attempts[k] == s.ledger.attempts[k];
      } else {
        SubmittedFromList(es[1..], minPoints, replies, s.ledger, k);
      }
    }
  }

  /**
   In a cycle, the site is asked to enter a giveaway only for an entry that is not faded,
   whose label parsed to the charged cost, and only while the balance was at least 1, at
   least the threshold and at least that cost. The final balance is the starting one less
   the costs of the accepted entries, and never negative.
   */
  lemma SubmissionsMeetPolicy(h: Home, cfg: Config, pages: seq<Page>, replies: seq<string>, k: nat)
    requires StartCycle(h, cfg, pages, replies).Cycled?
    requires k < |StartCycle(h, cfg, pages, replies).run.ledger.attempts|
    ensures var c := StartCycle(h, cfg, pages, replies);
      var atts := c.run.ledger.attempts;
      var before := c.balance - AcceptedCost(atts[..k]);
      && !atts[k].entry.faded
      && atts[k].entry.costLabel.Some?
      && ParseCost(atts[k].entry.costLabel.value) == Some(atts[k].cost)
      && 1 <= before && cfg.minPoints <= before && atts[k].cost <= before
      && atts[k].accepted == Accepted(replies[k])
  {
    var c := StartCycle(h, cfg, pages, replies);
    FundedAt(c.balance, cfg.minPoints, c.run.ledger.attempts, k);
    AnsweredAt(c.run.ledger.attempts, replies, k);
  }

  /** The example of a listing whose third page is empty: pages 1, 2 and 3 are fetched, no more. */
  lemma ThirdPageEndsListing(cfg: Config, replies: seq<string>, start: nat)
    ensures var off := Entry("x", true, Some("(5P)"));
      var pages := [Page([], [off]), Page([], [off]), Page([], []), Page([], [off])];
      var r := Walk(pages, 1, cfg, replies, Ledger(start, []), []);
      r.visited == [1, 2, 3] && r.stop == Exhausted && r.ledger == Ledger(start, [])
  {
    var off := Entry("x", true, Some("(5P)"));
    var pages := [Page([], [off]), Page([], [off]), Page([], []), Page([], [off])];
    var l := Ledger(start, []);
    assert EntryList(pages[0], cfg.pinned) == [off] && EntryList(pages[1], cfg.pinned) == [off];
    assert [off][1..] == [];
    assert RunEntries([off], cfg.minPoints, replies, l) == PageRun(l, None);
    assert PageAt(pages, 1) == pages[0] && PageAt(pages, 2) == pages[1] && PageAt(pages, 3) == pages[2];
    var w3 := Walk(pages, 3, cfg, replies, l, [1, 2]);
    assert w3 == CycleRun(l, [1, 2, 3], Exhausted);
    assert Walk(pages, 2, cfg, replies, l, [1]) == w3 by {
      assert [1] + [2] == [1, 2];
    }
    assert Walk(pages, 1, cfg, replies, l, []) == Walk(pages, 2, cfg, replies, l, [1]) by {
      assert [] + [1] == [1];
    }
  }

  /** The example of a balance of 3 under a threshold of 6: the cycle cools down before the affordable entry. */
  lemma ThresholdExample(replies: seq<string>)
    ensures var cheap := Entry("cheap", false, Some("(1P)"));
      var cfg := Config(All, false, 6);
      var r := Walk([Page([], [cheap])], 1, cfg, replies, Ledger(3, []), []);
      r.stop == Cooldown && r.ledger == Ledger(3, []) && r.visited == [1]
  {
    var cheap := Entry("cheap", false, Some("(1P)"));
    ThresholdStopsPage([], cheap, [], 6, replies, Ledger(3, []));
    assert [] + [cheap] + [] == [cheap];
  }

  /**
   The program as written and the intended policy differ exactly on an enterable entry with
   no cost label, reached while the balance is above the threshold: the program raises
   IndexError, the intended policy skips the entry.
   */
  lemma AsWrittenDiffersOnMissingLabel(e: Entry, points: int, minPoints: int)
    ensures DecideAsWritten(e, points, minPoints) != Decide(e, points, minPoints) <==>
      !e.faded && points != 0 && points >= minPoints && e.costLabel.None?
    ensures DecideAsWritten(e, points, minPoints) != Decide(e, points, minPoints) ==>
      DecideAsWritten(e, points, minPoints) == Abort(MissingCostLabel) &&
      Decide(e, points, minPoints) == Pass(NoCostLabel)
  {
  }

  /** A concrete row that shows it: a giveaway without a cost span, with 10 points and no threshold. */
  lemma MissingLabelRaisesAsWritten()
    ensures DecideAsWritten(Entry("abcde", false, None), 10, 0) == Abort(MissingCostLabel)
    ensures Decide(Entry("abcde", false, None), 10, 0) == Pass(NoCostLabel)
  {
  }

  /** With the intended policy an entry without a cost label is skipped: the page goes on and nothing is charged. */
  lemma {:induction false} MissingLabelSkipped(e: Entry, rest: seq<Entry>, minPoints: int, replies: seq<string>, l: Ledger)
    requires !e.faded && e.costLabel.None? && l.points != 0 && l.points >= minPoints
    ensures RunEntries([e] + rest, minPoints, replies, l) == RunEntries(rest, minPoints, replies, l)
  {
    assert ([e] + rest)[0] == e && ([e] + rest)[1..] == rest;
  }

  /** The refresh reads back the balance the home page shows in decimal, with the token it carries. */
  lemma RefreshReadsBalance(token: string, n: nat)
    ensures UpdateInfo(Home(Some(token), Some(Render(n)))) == Success((token, n))
  {
    ParseRender(n);
  }
}

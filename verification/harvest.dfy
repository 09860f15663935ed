/**
 The harvest loop of one cycle: refresh the session's token and balance, then walk the
 category's listing page by page, applying the budget policy to every entry.

 The recursion through `start()` that the program uses to restart after a cooldown is
 replaced by the signal a cycle ends with: `Cooldown` (the balance fell under the
 threshold mid-page), `Exhausted` (a page had no non-pinned entries) or `Failed` (an
 exception would have ended the program).
 */
module Harvest {
  import opened Wrappers
  import opened Decimal
  import opened Listing

  /** The run's configuration: category to scan, whether pinned giveaways count, the point threshold. */
  datatype Config = Config(category: Category, pinned: bool, minPoints: int)

  /** Conditions under which the program raises instead of going on. */
  datatype Fault =
    | MissingCostLabel      // the row has no cost span and `[-1]` raises IndexError
    | BadCostLabel(text: string)  // `int()` rejects the stripped label
    | NoReply(id: string)   // the entry POST failed on every retry

  /** How a cycle ends. */
  datatype Stop = Cooldown | Exhausted | Failed(fault: Fault)

  /** One submission: the entry, the cost that was parsed for it, and whether the site accepted it. */
  datatype Attempt = Attempt(entry: Entry, cost: nat, accepted: bool)

  /**
   The budget state: the current balance and every submission of the cycle so far. The k-th
   submission is answered by the k-th reply the site gives.
   */
  datatype Ledger = Ledger(points: int, attempts: seq<Attempt>)

  /** The submitter reports success exactly when the reply's `type` field is "success". */
  predicate Accepted(reply: string) {
    reply == "success"
  }

  /** The points spent by the accepted submissions of `atts`. */
  function AcceptedCost(atts: seq<Attempt>): nat {
    if |atts| == 0 then 0
    else AcceptedCost(atts[..|atts| - 1]) + (if atts[|atts| - 1].accepted then atts[|atts| - 1].cost else 0)
  }

  /** The balance the cycle started with: the current one plus what was spent. */
  function Origin(l: Ledger): int {
    l.points + AcceptedCost(l.attempts)
  }

  /** Each recorded submission carries the site's answer to it, in order. */
  predicate Answered(l: Ledger, replies: seq<string>) {
    AnsweredBy(l.attempts, replies)
  }

  /** Submission k was accepted exactly when reply k says "success", for every recorded k. */
  predicate AnsweredBy(atts: seq<Attempt>, replies: seq<string>) {
    |atts| <= |replies| &&
    (|atts| == 0 ||
     (AnsweredBy(atts[..|atts| - 1], replies) && atts[|atts| - 1].accepted == Accepted(replies[|atts| - 1])))
  }

  /** A submission was made for an enterable entry whose label parsed to the recorded cost. */
  predicate Admissible(a: Attempt) {
    !a.entry.faded && a.entry.costLabel.Some? && ParseCost(a.entry.costLabel.value) == Some(a.cost)
  }

  /**
   Every submission of `atts` was admissible and, at the moment it was made, the balance
   (`start` less what the earlier accepted ones cost) was non-zero, at least the threshold,
   and at least the entry's cost.
   */
  predicate Funded(start: int, minPoints: int, atts: seq<Attempt>) {
    |atts| == 0 ||
    var a, earlier := atts[|atts| - 1], atts[..|atts| - 1];
    var before := start - AcceptedCost(earlier);
    && Funded(start, minPoints, earlier)
    && Admissible(a) && before != 0 && before >= minPoints && a.cost <= before
  }

  /** Why an entry was passed over without stopping the page. */
  datatype Skip = Faded | NoCostLabel | Unaffordable

  /** What the policy does with one entry. */
  datatype Decision = Pass(why: Skip) | Pause | Submit(cost: nat) | Abort(fault: Fault)

  /**
   The entry is one the policy submits at this balance: it is not faded, the balance is
   non-zero and at least the threshold, and its label reads as a cost the balance covers.
   */
  predicate Eligible(e: Entry, points: int, minPoints: int) {
    && !e.faded && points != 0 && points >= minPoints
    && e.costLabel.Some? && ParseCost(e.costLabel.value).Some?
    && ParseCost(e.costLabel.value).value <= points
  }

  /** The entry is reached above the threshold with a label `int()` rejects once stripped. */
  predicate Unreadable(e: Entry, points: int, minPoints: int) {
    && !e.faded && points != 0 && points >= minPoints
    && e.costLabel.Some? && ParseCost(e.costLabel.value).None?
  }

  /**
   The per-entry policy, checks in the program's order: faded entries are skipped; then a
   balance of zero or under the threshold pauses the cycle; then the cost is parsed; an
   unaffordable entry is skipped; anything else is submitted. An entry without a cost label
   is skipped (the program as written raises instead; see `DecideAsWritten`).
   */
  function Decide(e: Entry, points: int, minPoints: int): (d: Decision)
    ensures e.faded ==> d == Pass(Faded)
    ensures d == Pause <==> !e.faded && (points == 0 || points < minPoints)
    ensures d.Submit? <==> Eligible(e, points, minPoints)
    ensures d.Submit? ==> ParseCost(e.costLabel.value) == Some(d.cost)
    ensures d.Abort? ==> d.fault.BadCostLabel? && e.costLabel.Some? && ParseCost(e.costLabel.value).None?
    ensures Unreadable(e, points, minPoints) ==> d == Abort(BadCostLabel(e.costLabel.value))
  {
    if e.faded then Pass(Faded)
    else if points == 0 || points < minPoints then Pause
    else
      match e.costLabel
      case None => Pass(NoCostLabel)
      case Some(text) =>
        match ParseCost(text)
        case None => Abort(BadCostLabel(text))
        case Some(cost) => if points - cost < 0 then Pass(Unaffordable) else Submit(cost)
  }

  /**
   The per-entry policy exactly as the program runs it: the cost span is looked up with
   `find_all(...)[-1]`, which raises on a row without one before the "no label, skip" branch
   can be reached.
   */
  function DecideAsWritten(e: Entry, points: int, minPoints: int): (d: Decision)
    ensures d == Abort(MissingCostLabel) <==>
      !e.faded && points != 0 && points >= minPoints && e.costLabel.None?
  {
    if e.faded then Pass(Faded)
    else if points == 0 || points < minPoints then Pause
    else
      match e.costLabel
      case None => Abort(MissingCostLabel)
      case Some(text) =>
        match ParseCost(text)
        case None => Abort(BadCostLabel(text))
        case Some(cost) => if points - cost < 0 then Pass(Unaffordable) else Submit(cost)
  }

  /** The outcome of processing entries: the new ledger, and the signal that stopped the page, if any. */
  datatype PageRun = PageRun(ledger: Ledger, signal: Option<Stop>)

  /** `l'` keeps the submissions recorded in `l`, in place, and may record more after them. */
  predicate Extends(l: Ledger, l': Ledger) {
    |l.attempts| <= |l'.attempts| && l'.attempts[..|l.attempts|] == l.attempts
  }

  /** One entry through the policy, consulting the next reply when it is submitted. */
  function Step(e: Entry, minPoints: int, replies: seq<string>, l: Ledger): (r: PageRun)
    ensures Extends(l, r.ledger) && |r.ledger.attempts| <= |l.attempts| + 1
    ensures Origin(r.ledger) == Origin(l)
    ensures r.ledger.points <= l.points
    ensures l.points >= 0 ==> r.ledger.points >= 0
    ensures Answered(l, replies) ==> Answered(r.ledger, replies)
    ensures Funded(Origin(l), minPoints, l.attempts) ==> Funded(Origin(l), minPoints, r.ledger.attempts)
    ensures r.signal.Some? ==> r.ledger == l && r.signal.value != Exhausted
    ensures r.signal == Some(Cooldown) <==> !e.faded && (l.points == 0 || l.points < minPoints)
    ensures e.faded ==> r == PageRun(l, None)
    ensures |r.ledger.attempts| > |l.attempts| ==>
      && r.signal.None? && r.ledger.attempts[|l.attempts|].entry == e
      && (r.ledger.attempts[|l.attempts|].accepted || r.ledger.points == l.points)
    ensures Decide(e, l.points, minPoints).Pass? ==> r == PageRun(l, None)
    ensures Eligible(e, l.points, minPoints) && |l.attempts| < |replies| ==>
      var cost := ParseCost(e.costLabel.value).value;
      var accepted := Accepted(replies[|l.attempts|]);
      && r.signal.None?
      && r.ledger.attempts == l.attempts + [Attempt(e, cost, accepted)]
      && r.ledger.points == (if accepted then l.points - cost else l.points)
    ensures Eligible(e, l.points, minPoints) && |l.attempts| >= |replies| ==>
      r == PageRun(l, Some(Failed(NoReply(e.id))))
    ensures Unreadable(e, l.points, minPoints) ==> r == PageRun(l, Some(Failed(BadCostLabel(e.costLabel.value))))
  {
    match Decide(e, l.points, minPoints)
    case Pass(_) => PageRun(l, None)
    case Pause => PageRun(l, Some(Cooldown))
    case Abort(f) => PageRun(l, Some(Failed(f)))
    case Submit(cost) =>
      if |l.attempts| >= |replies| then PageRun(l, Some(Failed(NoReply(e.id))))
      else
        var a := Attempt(e, cost, Accepted(replies[|l.attempts|]));
        RecordAttempt(l, a, minPoints, replies);
        PageRun(Record(l, a), None)
  }

  /** The ledger after a submission: the attempt is recorded, and its cost charged if it was accepted. */
  function Record(l: Ledger, a: Attempt): Ledger {
    Ledger(if a.accepted then l.points - a.cost else l.points, l.attempts + [a])
  }

  /** Charging the accepted cost of one more submission. */
  lemma AcceptedCostAppend(atts: seq<Attempt>, a: Attempt)
    ensures AcceptedCost(atts + [a]) == AcceptedCost(atts) + (if a.accepted then a.cost else 0)
  {
    assert (atts + [a])[..|atts|] == atts;
  }

  /** Recording an admissible, affordable submission answered by the next reply keeps the ledger's invariants. */
  lemma RecordAttempt(l: Ledger, a: Attempt, minPoints: int, replies: seq<string>)
    requires Admissible(a) && l.points != 0 && l.points >= minPoints && a.cost <= l.points
    requires |l.attempts| < |replies| && a.accepted == Accepted(replies[|l.attempts|])
    ensures Extends(l, Record(l, a)) && Origin(Record(l, a)) == Origin(l)
    ensures Answered(l, replies) ==> Answered(Record(l, a), replies)
    ensures Funded(Origin(l), minPoints, l.attempts) ==> Funded(Origin(l), minPoints, Record(l, a).attempts)
  {
    var atts := l.attempts + [a];
    assert atts[..|l.attempts|] == l.attempts;
    AcceptedCostAppend(l.attempts, a);
  }

  /** Extension of ledgers is transitive. */
  lemma ExtendsTrans(l: Ledger, m: Ledger, n: Ledger)
    requires Extends(l, m) && Extends(m, n)
    ensures Extends(l, n)
    ensures forall k :: 0 <= k < |m.attempts| ==> n.attempts[k] == m.attempts[k]
  {
    assert n.attempts[..|l.attempts|] == n.attempts[..|m.attempts|][..|l.attempts|];
    forall k | 0 <= k < |m.attempts|
      ensures n.attempts[k] == m.attempts[k]
    {
      assert n.attempts[k] == n.attempts[..|m.attempts|][k];
    }
  }

  /**
   The entries of one page, in order, until one of them stops the page. A faded entry or a
   skipped one moves on; a pause, a fault or a missing reply stops the page.
   */
  function RunEntries(es: seq<Entry>, minPoints: int, replies: seq<string>, l: Ledger): (r: PageRun)
    decreases |es|
    ensures Extends(l, r.ledger) && Origin(r.ledger) == Origin(l)
    ensures r.ledger.points <= l.points
    ensures l.points >= 0 ==> r.ledger.points >= 0
    ensures Answered(l, replies) ==> Answered(r.ledger, replies)
    ensures Funded(Origin(l), minPoints, l.attempts) ==> Funded(Origin(l), minPoints, r.ledger.attempts)
    ensures r.signal.Some? ==> r.signal.value != Exhausted
    ensures r.signal == Some(Cooldown) ==> r.ledger.points == 0 || r.ledger.points < minPoints
    ensures |es| > 0 && Eligible(es[0], l.points, minPoints) && |l.attempts| < |replies| ==>
      && |l.attempts| < |r.ledger.attempts|
      && r.ledger.attempts[|l.attempts|] ==
           Attempt(es[0], ParseCost(es[0].costLabel.value).value, Accepted(replies[|l.attempts|]))
  {
    if |es| == 0 then PageRun(l, None)
    else
      var s := Step(es[0], minPoints, replies, l);
      if s.signal.Some? then s
      else
        var r := RunEntries(es[1..], minPoints, replies, s.ledger);
        ExtendsTrans(l, s.ledger, r.ledger);
        assert |l.attempts| < |s.ledger.attempts| ==> r.ledger.attempts[|l.attempts|] == s.ledger.attempts[|l.attempts|];
        r
  }

  /** The outcome of a cycle's page walk: the ledger, the page numbers fetched in order, and how it ended. */
  datatype CycleRun = CycleRun(ledger: Ledger, visited: seq<nat>, stop: Stop)

  /**
   The page walk from page `n`: fetch the page; a page without non-pinned entries ends the
   walk; otherwise its entries go through the policy and, unless one of them stopped the
   cycle, the walk goes on with page `n + 1`. `visited` holds the pages fetched before `n`.
   */
  function Walk(pages: seq<Page>, n: nat, cfg: Config, replies: seq<string>, l: Ledger, visited: seq<nat>): (r: CycleRun)
    decreases |pages| - n
    ensures Extends(l, r.ledger) && Origin(r.ledger) == Origin(l)
    ensures r.ledger.points <= l.points
    ensures l.points >= 0 ==> r.ledger.points >= 0
    ensures Answered(l, replies) ==> Answered(r.ledger, replies)
    ensures Funded(Origin(l), cfg.minPoints, l.attempts) ==> Funded(Origin(l), cfg.minPoints, r.ledger.attempts)
    ensures r.stop == Cooldown ==> r.ledger.points == 0 || r.ledger.points < cfg.minPoints
    ensures |visited| < |r.visited| && r.visited[..|visited|] == visited
  {
    var page := PageAt(pages, n);
    if |page.common| == 0 then CycleRun(l, visited + [n], Exhausted)
    else
      var run := RunEntries(EntryList(page, cfg.pinned), cfg.minPoints, replies, l);
      match run.signal
      case Some(stop) => CycleRun(run.ledger, visited + [n], stop)
      case None =>
        var vis := visited + [n];
        var r := Walk(pages, n + 1, cfg, replies, run.ledger, vis);
        ExtendsTrans(l, run.ledger, r.ledger);
        assert r.visited[..|visited|] == r.visited[..|vis|][..|visited|];
        r
  }

  /** A walk at a page without non-pinned entries ends there. */
  lemma WalkEnds(pages: seq<Page>, n: nat, cfg: Config, replies: seq<string>, l: Ledger, visited: seq<nat>)
    requires |PageAt(pages, n).common| == 0
    ensures Walk(pages, n, cfg, replies, l, visited) == CycleRun(l, visited + [n], Exhausted)
  {
  }

  /** A walk at a page with non-pinned entries processes its list, then stops or goes on to the next page. */
  lemma WalkGoesOn(pages: seq<Page>, n: nat, cfg: Config, replies: seq<string>, l: Ledger, visited: seq<nat>)
    requires |PageAt(pages, n).common| > 0
    ensures 1 <= n <= |pages|
    ensures var run := RunEntries(EntryList(PageAt(pages, n), cfg.pinned), cfg.minPoints, replies, l);
      Walk(pages, n, cfg, replies, l, visited) ==
        if run.signal.Some? then CycleRun(run.ledger, visited + [n], run.signal.value)
        else Walk(pages, n + 1, cfg, replies, run.ledger, visited + [n])
  {
  }

  /**
   The pages a walk from `n` fetches, after the `visited` ones: `n`, `n + 1`, ... in order,
   every one of them but the last with non-pinned entries, and the last without them
   exactly when the walk ended because the listing was exhausted.
   */
  predicate WalkedFrom(pages: seq<Page>, n: nat, visited: seq<nat>, r: CycleRun) {
    && |visited| < |r.visited| && r.visited[..|visited|] == visited
    && (forall i :: |visited| <= i < |r.visited| ==> r.visited[i] == n + (i - |visited|))
    && (forall i :: |visited| <= i < |r.visited| - 1 ==> |PageAt(pages, r.visited[i]).common| > 0)
    && (r.stop == Exhausted <==> |PageAt(pages, r.visited[|r.visited| - 1]).common| == 0)
  }

  /** The walk fetches consecutive pages and stops at the first one without non-pinned entries, or earlier on a stop signal. */
  lemma {:induction false} WalkVisits(pages: seq<Page>, n: nat, cfg: Config, replies: seq<string>, l: Ledger, visited: seq<nat>)
    decreases |pages| - n
    ensures WalkedFrom(pages, n, visited, Walk(pages, n, cfg, replies, l, visited))
  {
    var page := PageAt(pages, n);
    if |page.common| == 0 {
      WalkedOne(pages, n, visited, CycleRun(l, visited + [n], Exhausted));
    } else {
      var run := RunEntries(EntryList(page, cfg.pinned), cfg.minPoints, replies, l);
      if run.signal.Some? {
        WalkedOne(pages, n, visited, CycleRun(run.ledger, visited + [n], run.signal.value));
      } else {
        WalkVisits(pages, n + 1, cfg, replies, run.ledger, visited + [n]);
        WalkedOnward(pages, n, visited, Walk(pages, n + 1, cfg, replies, run.ledger, visited + [n]));
      }
    }
  }

  /** A walk that stops at the page it fetched. */
  lemma WalkedOne(pages: seq<Page>, n: nat, visited: seq<nat>, r: CycleRun)
    requires r.visited == visited + [n]
    requires r.stop == Exhausted <==> |PageAt(pages, n).common| == 0
    ensures WalkedFrom(pages, n, visited, r)
  {
    assert r.visited[..|visited|] == visited;
  }

  /** A walk that goes on from a page with non-pinned entries to the next page. */
  lemma WalkedOnward(pages: seq<Page>, n: nat, visited: seq<nat>, r: CycleRun)
    requires |PageAt(pages, n).common| > 0
    requires WalkedFrom(pages, n + 1, visited + [n], r)
    ensures WalkedFrom(pages, n, visited, r)
  {
    var vis := visited + [n];
    assert r.visited[..|visited|] == r.visited[..|vis|][..|visited|];
    assert r.visited[|visited|] == r.visited[..|vis|][|visited|] == n;
    forall i | |visited| < i < |r.visited|
      ensures r.visited[i] == n + (i - |visited|)
    {
      assert r.visited[i] == n + 1 + (i - |vis|);
    }
  }

  /** What the home page shows: the hidden token field and the points indicator, when present. */
  datatype Home = Home(token: Option<string>, balance: Option<string>)

  /** Why a run ends at the refresh of the session. */
  datatype Halt =
    | InvalidCookie               // no token field: the TypeError is caught and the run exits
    | BalanceMissing              // no points indicator: `.text` on None raises AttributeError
    | BalanceUnreadable(text: string)  // `int()` rejects the indicator's text

  /** The session refresh at the top of each cycle: the token, then the balance. */
  function UpdateInfo(h: Home): (r: Result<(string, nat), Halt>)
    ensures r.Success? <==> h.token.Some? && h.balance.Some? && ParseNat(h.balance.value).Some?
    ensures r.Success? ==> r.value.0 == h.token.value && Some(r.value.1) == ParseNat(h.balance.value)
    ensures r == Failure(InvalidCookie) <==> h.token.None?
  {
    match h.token
    case None => Failure(InvalidCookie)
    case Some(token) =>
      match h.balance
      case None => Failure(BalanceMissing)
      case Some(text) =>
        match ParseNat(text)
        case None => Failure(BalanceUnreadable(text))
        case Some(points) => Success((token, points))
  }

  /** A cycle either halts at the refresh, fetching no listing page, or walks the listing. */
  datatype Outcome = Halted(why: Halt) | Cycled(balance: nat, run: CycleRun)

  /** One cycle of `start()`: refresh the session, then walk the listing from page 1. */
  function StartCycle(h: Home, cfg: Config, pages: seq<Page>, replies: seq<string>): (r: Outcome)
    ensures r.Halted? <==> UpdateInfo(h).Failure?
    ensures r.Cycled? ==>
      && Some(r.balance) == ParseNat(h.balance.value)
      && |r.run.visited| >= 1 && r.run.visited[0] == 1
      && r.run.ledger.points >= 0
      && r.run.ledger.points == r.balance - AcceptedCost(r.run.ledger.attempts)
      && Answered(r.run.ledger, replies)
      && Funded(r.balance, cfg.minPoints, r.run.ledger.attempts)
  {
    var info := UpdateInfo(h);
    if info.Failure? then Halted(info.error)
    else
      var balance := info.value.1;
      var run := Walk(pages, 1, cfg, replies, Ledger(balance, []), []);
      assert Funded(balance, cfg.minPoints, []);
      WalkVisits(pages, 1, cfg, replies, Ledger(balance, []), []);
      Cycled(balance, run)
  }
}

/**
 What the harvest loop reads from the site: the category page URLs it fetches, the
 giveaway entries a listing page holds, and the cost label of an entry.
 */
module Listing {
  import opened Wrappers
  import opened Decimal

  /** The listing categories a run can scan (the keys of `filter_url`). */
  datatype Category = All | Wishlist | Recommended | Copies | DLC | Group | New

  const Base: string := "https://www.steamgifts.com"

  const PageParam: string := "search?page="

  /** Every category page URL starts with the search endpoint and the page parameter. */
  const SearchPrefix: string := Base + "/giveaways/" + PageParam

  /** What follows the page number in a category's query; it never starts with a digit. */
  function Query(c: Category): (q: string)
    ensures q == [] || !IsDigit(q[0])
  {
    match c
    case All => ""
    case Wishlist => "&type=wishlist"
    case Recommended => "&type=recommended"
    case Copies => "&copy_min=2"
    case DLC => "&dlc=true"
    case Group => "&type=group"
    case New => "&type=new"
  }

  /** The query template of each category; `%d` stands for the page number. */
  function Template(c: Category): string {
    "search?page=%d" + Query(c)
  }

  /**
   Substitution of the page number for the first `%d` of a template. This agrees with Python's
   `%` on the seven category templates, whose text has exactly one `%`, the `%d`; unlike `%`
   it does not raise on a template with no specifier or several, and does not turn `%%` into `%`.
   */
  function Interpolate(t: string, n: nat): string {
    if |t| < 2 then t
    else if t[0] == '%' && t[1] == 'd' then Render(n) + t[2..]
    else [t[0]] + Interpolate(t[1..], n)
  }

  /** The URL of page `n` of a category's listing. */
  function PageUrl(c: Category, n: nat): string {
    Base + "/giveaways/" + Interpolate(Template(c), n)
  }

  /** Substituting into a template whose `%d` is the first `%` replaces exactly that placeholder. */
  lemma {:induction false} InterpolateAt(pre: string, post: string, n: nat)
    requires forall i :: 0 <= i < |pre| ==> pre[i] != '%'
    ensures Interpolate(pre + "%d" + post, n) == pre + Render(n) + post
  {
    if |pre| == 0 {
      assert pre + "%d" + post == "%d" + post;
      InterpolateHere(post, n);
    } else {
      var rest := pre[1..] + "%d" + post;
      assert pre + "%d" + post == [pre[0]] + rest;
      InterpolateSkip(pre[0], rest, n);
      InterpolateAt(pre[1..], post, n);
      assert [pre[0]] + (pre[1..] + Render(n) + post) == pre + Render(n) + post;
    }
  }

  /** The placeholder at the front is replaced by the number. */
  lemma InterpolateHere(post: string, n: nat)
    ensures Interpolate("%d" + post, n) == Render(n) + post
  {
    var t := "%d" + post;
    assert t[0] == '%' && t[1] == 'd' && t[2..] == post;
  }

  /** A character other than `%` is copied through. */
  lemma InterpolateSkip(ch: char, rest: string, n: nat)
    requires ch != '%'
    ensures Interpolate([ch] + rest, n) == [ch] + Interpolate(rest, n)
  {
    var t := [ch] + rest;
    if |t| >= 2 {
      assert t[0] == ch && t[1..] == rest;
    } else {
      assert rest == [] && Interpolate(rest, n) == [];
    }
  }

  /** The page parameter of every template, split at its placeholder. */
  lemma TemplateSplit(c: Category)
    ensures Template(c) == PageParam + "%d" + Query(c)
    ensures forall i :: 0 <= i < |PageParam| ==> PageParam[i] != '%'
  {
    assert "search?page=%d" == PageParam + "%d";
  }

  /** Every page URL is the search endpoint, the page number in decimal, then the category's query. */
  lemma PageUrlShape(c: Category, n: nat)
    ensures PageUrl(c, n) == SearchPrefix + (Render(n) + Query(c))
  {
    var q, r := Query(c), Render(n);
    TemplateSplit(c);
    InterpolateAt(PageParam, q, n);
    Regroup(Base + "/giveaways/", PageParam, r, q);
  }

  lemma Regroup(a: string, b: string, c: string, d: string)
    ensures a + (b + c + d) == (a + b) + (c + d)
  {
  }

  /** The length of the run of digits a string starts with. */
  function DigitRun(s: string): (k: nat)
    ensures k <= |s|
  {
    if |s| == 0 || !IsDigit(s[0]) then 0 else 1 + DigitRun(s[1..])
  }

  /** A digit run followed by a tail that does not start with a digit: the run is exactly the digits. */
  lemma {:induction false} DigitRunOf(a: string, q: string)
    requires AllDigits(a)
    requires q == [] || !IsDigit(q[0])
    ensures DigitRun(a + q) == |a|
  {
    if |a| == 0 {
      assert a + q == q;
    } else {
      assert (a + q)[0] == a[0] && (a + q)[1..] == a[1..] + q;
      DigitRunOf(a[1..], q);
    }
  }

  /** Equal strings with equal prefixes have equal remainders. */
  lemma CancelPrefix(p: string, x: string, y: string)
    requires p + x == p + y
    ensures x == y
  {
    assert x == (p + x)[|p|..];
    assert y == (p + y)[|p|..];
  }

  /** Different pages, or different categories, are fetched from different URLs. */
  lemma PageUrlInjective(c: Category, n: nat, c': Category, m: nat)
    requires PageUrl(c, n) == PageUrl(c', m)
    ensures n == m && c == c'
  {
    PageUrlShape(c, n);
    PageUrlShape(c', m);
    var x, y := Render(n) + Query(c), Render(m) + Query(c');
    CancelPrefix(SearchPrefix, x, y);
    DigitRunOf(Render(n), Query(c));
    DigitRunOf(Render(m), Query(c'));
    assert Render(n) == x[..|Render(n)|] && Render(m) == y[..|Render(m)|];
    assert Query(c) == x[|Render(n)|..] && Query(c') == y[|Render(m)|..];
    RenderInjective(n, m);
  }

  /**
   One giveaway row of a listing page. `costLabel` is the text of the last cost span of the
   row, or `None` when the row has no such span; `id` is the code taken from the row's link.
   */
  datatype Entry = Entry(id: string, faded: bool, costLabel: Option<string>)

  /** A listing page: the pinned block, then the rows of every section after it, in document order. */
  datatype Page = Page(pinned: seq<Entry>, common: seq<Entry>)

  /** The rows one page hands to the budget policy, in the order they are processed. */
  function EntryList(p: Page, includePinned: bool): (r: seq<Entry>)
    ensures |r| == (if includePinned then |p.pinned| else 0) + |p.common|
    ensures includePinned ==> r[..|p.pinned|] == p.pinned && r[|p.pinned|..] == p.common
    ensures !includePinned ==> r == p.common
  {
    (if includePinned then p.pinned else []) + p.common
  }

  /**
   Page `n` (counting from 1) of a listing given as its pages in order; past the last page the
   site serves a page without entries.
   */
  function PageAt(pages: seq<Page>, n: nat): (p: Page)
    ensures 1 <= n <= |pages| ==> p == pages[n - 1]
    ensures !(1 <= n <= |pages|) ==> p == Page([], [])
  {
    if 1 <= n <= |pages| then pages[n - 1] else Page([], [])
  }

  predicate LabelChar(c: char) {
    c == '(' || c == ')' || c == 'P'
  }

  /** The parentheses and `P`s of `s`, in order. */
  function LabelsOf(s: string): (r: string)
    ensures forall i :: 0 <= i < |r| ==> LabelChar(r[i])
  {
    if |s| == 0 then []
    else if LabelChar(s[0]) then [s[0]] + LabelsOf(s[1..])
    else LabelsOf(s[1..])
  }

  /** The cost label with every parenthesis and every `P` removed. */
  function StripLabel(s: string): (r: string)
    ensures |r| <= |s|
    ensures forall i :: 0 <= i < |r| ==> !LabelChar(r[i])
    ensures (forall i :: 0 <= i < |s| ==> !LabelChar(s[i])) ==> r == s
    ensures |r| == |s| - |LabelsOf(s)|
  {
    if |s| == 0 then []
    else if LabelChar(s[0]) then StripLabel(s[1..])
    else [s[0]] + StripLabel(s[1..])
  }

  /**
   Stripping deletes the parentheses and `P`s rather than replacing them: every other
   character is kept as often as it occurs, and the removed ones are exactly `LabelsOf(s)`.
   */
  lemma {:induction false} StripLabelDeletes(s: string)
    ensures multiset(StripLabel(s)) + multiset(LabelsOf(s)) == multiset(s)
    ensures forall c :: !LabelChar(c) ==> multiset(StripLabel(s))[c] == multiset(s)[c]
  {
    if |s| > 0 {
      StripLabelDeletes(s[1..]);
      assert s == [s[0]] + s[1..];
      assert multiset(s) == multiset([s[0]]) + multiset(s[1..]);
    }
  }

  /** Stripping distributes over concatenation: it removes characters one by one, keeping the order of the rest. */
  lemma {:induction false} StripLabelAppend(a: string, b: string)
    ensures StripLabel(a + b) == StripLabel(a) + StripLabel(b)
  {
    if |a| == 0 {
      assert a + b == b;
    } else {
      assert (a + b)[0] == a[0] && (a + b)[1..] == a[1..] + b;
      StripLabelAppend(a[1..], b);
    }
  }

  /** The cost of an entry read from its label: strip `(`, `)` and `P`, then `int()`. */
  function ParseCost(text: string): (r: Option<nat>)
    ensures r.Some? <==> 1 <= |StripLabel(text)| && AllDigits(StripLabel(text))
  {
    ParseNat(StripLabel(text))
  }

  /** Stripping a label that wraps a run of digits as `(digitsP)` leaves the digits. */
  lemma StripWrapped(digits: string)
    requires AllDigits(digits)
    ensures StripLabel("(" + digits + "P)") == digits
  {
    StripLabelAppend("(" + digits, "P)");
    StripLabelAppend("(", digits);
    assert StripLabel("(") == [] by {
      assert "("[1..] == [];
    }
    assert StripLabel("P)") == [] by {
      assert "P)"[1..] == ")" && ")"[1..] == [];
    }
    assert StripLabel(digits) == digits by {
      assert forall i :: 0 <= i < |digits| ==> IsDigit(digits[i]) && !LabelChar(digits[i]);
    }
  }

  /** The label the site prints for a cost of `n` points reads back as `n`. */
  lemma ParseCostOfLabel(n: nat)
    ensures ParseCost("(" + Render(n) + "P)") == Some(n)
  {
    StripWrapped(Render(n));
    ParseRender(n);
  }

  lemma FifteenPoints()
    ensures ParseCost("(15P)") == Some(15)
  {
    ParseCostOfLabel(15);
    assert Render(15) == [DigitChar(1)] + [DigitChar(5)];
    assert DigitChar(1) == '1' && DigitChar(5) == '5';
    assert Render(15) == "15";
    assert "(" + "15" + "P)" == "(15P)";
  }

  /** A zero-padded label reads as its number: "(0nP)" costs n, as `int("05")` is 5. */
  lemma PaddedLabel(n: nat)
    ensures ParseCost("(0" + Render(n) + "P)") == Some(n)
  {
    var digits := "0" + Render(n);
    assert "(0" + Render(n) + "P)" == "(" + digits + "P)";
    LeadingZero(Render(n));
    StripWrapped(digits);
    ParseRender(n);
  }
}

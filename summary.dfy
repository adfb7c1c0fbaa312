/** The sidebar analysis: for the week, the month and the year, the latest
    period that has entries, with its three most frequent activities and its
    three most frequent one-word keywords. */
module Summary {
  import opened LexOrder
  import opened Calendar
  import opened Journal
  import opened PeriodKey
  import opened Counting
  import opened Grouping
  import opened EntryLog

  /** What the sidebar shows for one kind of period. */
  datatype PeriodSummary = PeriodSummary(latest: string, activities: seq<string>, keywords: seq<string>)

  /** The periods the sidebar walks through, in its order. */
  const Periods: seq<Period> := [Week, Month, Year]

  /** The activity lists of `g` joined end to end (`acts += ...`). */
  function ActivitiesOf(g: seq<Entry>): (acts: seq<string>)
    ensures forall a :: a in acts <==> exists i :: 0 <= i < |g| && a in g[i].answers.activities
  {
    if g == [] then []
    else
      var init := g[..|g| - 1];
      var r := ActivitiesOf(init) + g[|g| - 1].answers.activities;
      assert forall i :: 0 <= i < |init| ==> init[i] == g[i];
      r
  }

  /** The one-word answers of `g`, one per entry (`words.append(...)`). */
  function OneWordsOf(g: seq<Entry>): (words: seq<string>)
    ensures |words| == |g|
  {
    seq(|g|, i requires 0 <= i < |g| => g[i].answers.oneWord)
  }

  /** The loop over the latest bucket that gathers its activities and words. */
  method Collect(g: seq<Entry>) returns (acts: seq<string>, words: seq<string>)
    ensures acts == ActivitiesOf(g)
    ensures words == OneWordsOf(g)
  {
    acts, words := [], [];
    for i := 0 to |g|
      invariant acts == ActivitiesOf(g[..i])
      invariant words == OneWordsOf(g[..i])
    {
      assert g[..i + 1][..i] == g[..i];
      acts := acts + g[i].answers.activities;
      words := words + [g[i].answers.oneWord];
    }
    assert g[..|g|] == g;
  }

  /** `s` is what the sidebar shows for `period`: the greatest key present,
      and the `most_common(3)` activities and keywords of its bucket. */
  predicate IsSummaryOf(es: seq<Entry>, period: Period, s: PeriodSummary)
    requires ValidEntries(es)
  {
    && s.latest in Keys(es, period)
    && (forall i :: 0 <= i < |es| ==> LexLe(Key(es[i].created, period), s.latest))
    && s.activities == MostCommon(ActivitiesOf(Select(es, period, s.latest)), 3)
    && s.keywords == MostCommon(OneWordsOf(Select(es, period, s.latest)), 3)
  }

  /** One pass of the sidebar's loop: group, pick the latest key, summarise. */
  method Summarize(es: seq<Entry>, period: Period) returns (s: PeriodSummary)
    requires ValidEntries(es) && |es| > 0
    ensures IsSummaryOf(es, period, s)
  {
    var groups, order := GroupBy(es, period);
    assert Keys(es, period)[0] in order;
    var latest := Latest(order);
    var acts, words := Collect(groups[latest]);
    s := PeriodSummary(latest, MostCommon(acts, 3), MostCommon(words, 3));
  }

  /** The whole sidebar: nothing when there are no entries, otherwise one
      summary per period in `Periods`. */
  method Sidebar(es: seq<Entry>) returns (summaries: seq<PeriodSummary>)
    requires ValidEntries(es)
    ensures es == [] ==> summaries == []
    ensures es != [] ==> |summaries| == |Periods|
    ensures es != [] ==> forall j :: 0 <= j < |Periods| ==> IsSummaryOf(es, Periods[j], summaries[j])
  {
    summaries := [];
    if es == [] {
      return;
    }
    for j := 0 to |Periods|
      invariant |summaries| == j
      invariant forall t :: 0 <= t < j ==> IsSummaryOf(es, Periods[t], summaries[t])
    {
      var s := Summarize(es, Periods[j]);
      summaries := summaries + [s];
    }
  }

  /** The sidebar as the page runs it: read the log, then summarise it. Every
      entry the wizard saves is dated, so the log always qualifies. */
  method SidebarOfLog(log: Log) returns (summaries: seq<PeriodSummary>)
    requires log.Valid()
    ensures log.Entries() == [] ==> summaries == []
    ensures log.Entries() != [] ==> |summaries| == |Periods|
    ensures log.Entries() != [] ==> forall j :: 0 <= j < |Periods| ==> IsSummaryOf(log.Entries(), Periods[j], summaries[j])
  {
    var es := log.ReadEntries();
    summaries := Sidebar(es);
  }

  /** The key chosen as latest is the chronologically latest period present:
      it is the key of some entry whose period is at least every entry's. */
  lemma LatestIsLatestPeriod(es: seq<Entry>, period: Period, s: PeriodSummary)
    requires ValidEntries(es) && IsSummaryOf(es, period, s)
    ensures exists j :: 0 <= j < |es| && Key(es[j].created, period) == s.latest
    ensures forall i, j :: (0 <= i < |es| && 0 <= j < |es| && Key(es[j].created, period) == s.latest
      ==> PeriodLe(es[i].created, es[j].created, period))
  {
    var ks := Keys(es, period);
    var j0 :| 0 <= j0 < |ks| && ks[j0] == s.latest;
    forall i, j | 0 <= i < |es| && 0 <= j < |es| && Key(es[j].created, period) == s.latest
      ensures PeriodLe(es[i].created, es[j].created, period)
    {
      KeyOrder(es[i].created, es[j].created, period);
    }
  }

  /** The most recently dated entry always belongs to the latest bucket. */
  lemma NewestEntryIsInLatest(es: seq<Entry>, period: Period, s: PeriodSummary, m: nat)
    requires ValidEntries(es) && IsSummaryOf(es, period, s)
    requires m < |es|
    requires forall i :: 0 <= i < |es| ==> DateLe(es[i].created, es[m].created)
    ensures Key(es[m].created, period) == s.latest
    ensures m in Positions(Keys(es, period), s.latest)
  {
    var ks := Keys(es, period);
    var j :| 0 <= j < |ks| && ks[j] == s.latest;
    KeyMonotone(es[j].created, es[m].created, period);
    LexLeAntisymmetric(Key(es[m].created, period), s.latest);
    ExactlyOneBucket(es, period, m, s.latest);
  }

  /** Every entry of a bucket is an entry of the log with that bucket's key. */
  lemma SelectMember(es: seq<Entry>, period: Period, k: string, t: nat)
    requires ValidEntries(es) && t < |Select(es, period, k)|
    ensures exists i :: 0 <= i < |es| && Key(es[i].created, period) == k && Select(es, period, k)[t] == es[i]
  {
    SelectIsSubsequence(es, period, k);
    var ps := Positions(Keys(es, period), k);
    assert ps[t] in ps;
  }

  /** At most three activities are shown, each done in an entry of the latest
      period; likewise for the keywords. */
  lemma SummaryDrawsFromLatest(es: seq<Entry>, period: Period, s: PeriodSummary)
    requires ValidEntries(es) && IsSummaryOf(es, period, s)
    ensures |s.activities| <= 3 && |s.keywords| <= 3
    ensures forall a :: a in s.activities ==> exists i :: (0 <= i < |es|
      && Key(es[i].created, period) == s.latest && a in es[i].answers.activities)
    ensures forall w :: w in s.keywords ==> exists i :: (0 <= i < |es|
      && Key(es[i].created, period) == s.latest && w == es[i].answers.oneWord)
  {
    var g := Select(es, period, s.latest);
    forall a | a in s.activities
      ensures exists i :: 0 <= i < |es| && Key(es[i].created, period) == s.latest && a in es[i].answers.activities
    {
      assert a in ActivitiesOf(g);
      var t :| 0 <= t < |g| && a in g[t].answers.activities;
      SelectMember(es, period, s.latest, t);
    }
    forall w | w in s.keywords
      ensures exists i :: 0 <= i < |es| && Key(es[i].created, period) == s.latest && w == es[i].answers.oneWord
    {
      var ws := OneWordsOf(g);
      assert w in ws;
      var t :| 0 <= t < |ws| && ws[t] == w;
      SelectMember(es, period, s.latest, t);
    }
  }
}

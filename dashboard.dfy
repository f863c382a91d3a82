/** The statistics dashboard: three status groups with their counts and
    amount sums, the acceptance rate, the pie-chart slices and the six-month
    series, computed from the rows `loadDashboardData` fetched. */
module Dashboard {
  import opened Notices

  datatype DashboardStats = DashboardStats(
    total: nat,
    accepted: nat,
    pending: nat,
    ignored: nat,
    totalValue: int,
    acceptedValue: int,
    pendingValue: int)

  const InitialStats := DashboardStats(0, 0, 0, 0, 0, 0, 0)

  // ---------------------------------------------------------------------------
  // The three groups

  /** In none of the three groups: `accepted` is null and the status is not 'ignored'. */
  predicate InNoGroup(n: Notice) { n.accepted == None && !IsIgnored(n) }

  /** In two groups: accepted and also marked 'ignored'. */
  predicate InTwoGroups(n: Notice) { IsAccepted(n) && IsIgnored(n) }

  /** Every notice falls in no group, one group, or (accepted and ignored) two:
      counting the three groups counts the second kind once, the third twice
      and the first not at all. */
  lemma {:induction false} GroupCountIdentity(ns: seq<Notice>)
    ensures CountWhere(ns, IsAccepted) + CountWhere(ns, IsStrictlyPending) + CountWhere(ns, IsIgnored)
            + CountWhere(ns, InNoGroup)
            == |ns| + CountWhere(ns, InTwoGroups)
  {
    if ns != [] {
      GroupCountIdentity(ns[1..]);
      CountWhereCons(ns, IsAccepted);
      CountWhereCons(ns, IsStrictlyPending);
      CountWhereCons(ns, IsIgnored);
      CountWhereCons(ns, InNoGroup);
      CountWhereCons(ns, InTwoGroups);
      GroupCountOfOne(ns[0]);
    }
  }

  lemma GroupCountOfOne(h: Notice)
    ensures (if IsAccepted(h) then 1 else 0) + (if IsStrictlyPending(h) then 1 else 0)
            + (if IsIgnored(h) then 1 else 0) + (if InNoGroup(h) then 1 else 0)
            == 1 + (if InTwoGroups(h) then 1 else 0)
  {
    if h.accepted == None {
    } else if h.accepted.value {
      assert h.accepted == Some(true);
    } else {
      assert h.accepted == Some(false);
    }
  }

  /** The stats of `loadDashboardData`: the three filters, the list length and
      the three sums. The groups add up to the total exactly when the records
      in no group balance those counted twice; with no null acceptance and no
      accepted-and-ignored record they partition the list. With no negative
      amount, the accepted and pending sums stay within the total sum. */
  function ComputeStats(ns: seq<Notice>): (s: DashboardStats)
    ensures s.total == |ns| && s.accepted <= s.total && s.pending <= s.total && s.ignored <= s.total
    ensures s.accepted == CountWhere(ns, IsAccepted) && s.pending == CountWhere(ns, IsStrictlyPending)
            && s.ignored == CountWhere(ns, IsIgnored)
    ensures s.totalValue == TotalCents(ns)
            && s.acceptedValue == TotalCents(Select(ns, IsAccepted))
            && s.pendingValue == TotalCents(Select(ns, IsStrictlyPending))
    ensures s.accepted + s.pending + s.ignored + CountWhere(ns, InNoGroup)
            == s.total + CountWhere(ns, InTwoGroups)
    ensures (forall n :: n in ns ==> !InNoGroup(n) && !InTwoGroups(n))
            ==> s.accepted + s.pending + s.ignored == s.total
    ensures NonNegativeAmounts(ns) ==> s.acceptedValue + s.pendingValue <= s.totalValue
  {
    var accepted := Select(ns, IsAccepted);
    var pending := Select(ns, IsStrictlyPending);
    var ignored := Select(ns, IsIgnored);
    GroupCountIdentity(ns);
    NoneSelected(ns, InNoGroup);
    NoneSelected(ns, InTwoGroups);
    ValueBound(ns);
    DashboardStats(
      |ns|, |accepted|, |pending|, |ignored|,
      TotalCents(ns), TotalCents(accepted), TotalCents(pending))
  }

  /** The accepted and pending amounts never exceed the total amount when no amount is negative. */
  lemma ValueBound(ns: seq<Notice>)
    ensures NonNegativeAmounts(ns) ==>
              TotalCents(Select(ns, IsAccepted)) + TotalCents(Select(ns, IsStrictlyPending)) <= TotalCents(ns)
  {
    if NonNegativeAmounts(ns) {
      DisjointSumsBounded(ns, IsAccepted, IsStrictlyPending);
    }
  }

  /** The pending group shares no notice with the accepted group or with the
      ignored group (the accepted and ignored groups may overlap). */
  lemma PendingIsDisjoint(ns: seq<Notice>, n: Notice)
    requires n in Select(ns, IsStrictlyPending)
    ensures n !in Select(ns, IsAccepted) && n !in Select(ns, IsIgnored)
  {
  }

  /** A notice whose `accepted` is null and whose status is 'pending' is
      counted in no group, so the dashboard shows 0 + 0 + 0 for a total of 1. */
  lemma NullAcceptedIsUncounted(n: Notice)
    requires n.accepted == None && n.status == "pending"
    ensures var s := ComputeStats([n]);
            s.total == 1 && s.accepted + s.pending + s.ignored == 0
  {
    var s := ComputeStats([n]);
    assert CountWhere([n], InNoGroup) == 1;
    assert CountWhere([n], InTwoGroups) == 0;
  }

  /** An accepted notice whose status is 'ignored' is counted twice: 2 for a total of 1. */
  lemma AcceptedIgnoredIsCountedTwice(n: Notice)
    requires n.accepted == Some(true) && n.status == "ignored"
    ensures var s := ComputeStats([n]);
            s.total == 1 && s.accepted + s.pending + s.ignored == 2
  {
    var s := ComputeStats([n]);
    assert CountWhere([n], InNoGroup) == 0;
    assert CountWhere([n], InTwoGroups) == 1;
  }

  // ---------------------------------------------------------------------------
  // Derived display values

  /** `acceptanceRate` before `toFixed(1)`: the accepted share of the total in
      percent, 0 for an empty list. */
  function AcceptanceRate(s: DashboardStats): (r: real)
    ensures s.total == 0 ==> r == 0.0
    ensures s.total > 0 ==> r * (s.total as real) == (s.accepted as real) * 100.0
    ensures s.accepted <= s.total ==> 0.0 <= r <= 100.0
  {
    if s.total > 0 then
      var q := (s.accepted as real) / (s.total as real);
      assert q * (s.total as real) == s.accepted as real;
      assert s.accepted <= s.total ==> q <= 1.0;
      q * 100.0
    else 0.0
  }

  datatype PieSlice = PieSlice(name: string, value: nat)

  /** The three candidate slices in their fixed order. */
  function AllSlices(s: DashboardStats): seq<PieSlice> {
    [PieSlice("Aceitas", s.accepted), PieSlice("Pendentes", s.pending), PieSlice("Ignoradas", s.ignored)]
  }

  predicate NonEmptySlice(sl: PieSlice) { sl.value > 0 }

  /** `pieData`: the non-empty categories, in the order accepted, pending, ignored. */
  function PieData(s: DashboardStats): (r: seq<PieSlice>)
    ensures forall i :: 0 <= i < |r| ==> r[i].value > 0
    ensures PieSlice("Aceitas", s.accepted) in r <==> s.accepted > 0
    ensures PieSlice("Pendentes", s.pending) in r <==> s.pending > 0
    ensures PieSlice("Ignoradas", s.ignored) in r <==> s.ignored > 0
    ensures IsSublist(r, AllSlices(s))
  {
    var all := AllSlices(s);
    SelectIsSublist(all, NonEmptySlice);
    PieDataMembers(s);
    Select(all, NonEmptySlice)
  }

  lemma PieDataMembers(s: DashboardStats)
    ensures var r := Select(AllSlices(s), NonEmptySlice);
            && (forall i :: 0 <= i < |r| ==> r[i].value > 0)
            && (PieSlice("Aceitas", s.accepted) in r <==> s.accepted > 0)
            && (PieSlice("Pendentes", s.pending) in r <==> s.pending > 0)
            && (PieSlice("Ignoradas", s.ignored) in r <==> s.ignored > 0)
  {
    PieDataShape(s);
    var r := Select(AllSlices(s), NonEmptySlice);
    assert forall i :: 0 <= i < |r| ==> r[i] in r && NonEmptySlice(r[i]);
    assert "Aceitas"[0] != "Pendentes"[0] && "Aceitas"[0] != "Ignoradas"[0] && "Pendentes"[0] != "Ignoradas"[0];
  }

  function KeepIfNonEmpty(sl: PieSlice): seq<PieSlice> { if sl.value > 0 then [sl] else [] }

  lemma PieDataShape(s: DashboardStats)
    ensures Select(AllSlices(s), NonEmptySlice)
            == KeepIfNonEmpty(AllSlices(s)[0]) + KeepIfNonEmpty(AllSlices(s)[1]) + KeepIfNonEmpty(AllSlices(s)[2])
  {
    var all := AllSlices(s);
    assert all[1..][1..][1..] == [];
    assert Select(all[1..][1..], NonEmptySlice) == KeepIfNonEmpty(all[2]);
    assert Select(all[1..], NonEmptySlice) == KeepIfNonEmpty(all[1]) + KeepIfNonEmpty(all[2]);
  }

  // ---------------------------------------------------------------------------
  // The six-month series

  /** One bar of the monthly chart. The source labels it with the locale's
      short month name; here it carries the month itself. */
  datatype MonthlyData = MonthlyData(month: YearMonth, total: nat, accepted: nat, pending: nat)

  /** `new Date(now.getFullYear(), now.getMonth() - i, 1)`: the month i months
      before now, the year rolling back as often as needed. */
  function MonthsBefore(now: YearMonth, i: nat): (m: YearMonth)
    requires ValidMonth(now)
    ensures ValidMonth(m)
  {
    var index := now.year * 12 + (now.month - 1) - i;
    YearMonth(index / 12, index % 12 + 1)
  }

  /** The calendar month after m: December is followed by January of the next year. */
  function NextMonth(m: YearMonth): YearMonth {
    if m.month == 12 then YearMonth(m.year + 1, 1) else YearMonth(m.year, m.month + 1)
  }

  /** The window ends at the current month, each month of it is followed by the
      next one, and no month occurs twice. */
  lemma WindowIsConsecutive(now: YearMonth, i: nat, j: nat)
    requires ValidMonth(now)
    ensures MonthsBefore(now, 0) == now
    ensures NextMonth(MonthsBefore(now, i + 1)) == MonthsBefore(now, i)
    ensures i != j ==> MonthsBefore(now, i) != MonthsBefore(now, j)
  {
    MonthIndex(now, 0);
    MonthIndex(now, i);
    MonthIndex(now, i + 1);
    MonthIndex(now, j);
    IndexDetermines(MonthsBefore(now, 0), now);
    IndexDetermines(NextMonth(MonthsBefore(now, i + 1)), MonthsBefore(now, i));
  }

  /** Months counted from year 0: the month i months before now has the
      index of now minus i. */
  lemma MonthIndex(now: YearMonth, i: nat)
    requires ValidMonth(now)
    ensures var m := MonthsBefore(now, i);
            m.year * 12 + m.month == now.year * 12 + now.month - i
  {
  }

  /** A valid month is determined by its index. */
  lemma IndexDetermines(a: YearMonth, b: YearMonth)
    requires ValidMonth(a) && ValidMonth(b)
    requires a.year * 12 + a.month == b.year * 12 + b.month
    ensures a == b
  {
  }

  /** The bar of month m after counting the notices of ns in order: a notice of
      another month changes nothing; one of month m adds 1 to the total and 1
      to accepted if it is accepted, else 1 to pending unless it is ignored. */
  function Tally(ns: seq<Notice>, m: YearMonth): (b: MonthlyData)
    ensures b.month == m
    ensures b.accepted + b.pending <= b.total
  {
    if ns == [] then MonthlyData(m, 0, 0, 0)
    else
      var b := Tally(ns[..|ns| - 1], m);
      var n := ns[|ns| - 1];
      if n.createdMonth != m then b
      else b.(total := b.total + 1,
              accepted := if IsAccepted(n) then b.accepted + 1 else b.accepted,
              pending := if !IsAccepted(n) && !IsIgnored(n) then b.pending + 1 else b.pending)
  }

  predicate CreatedIn(n: Notice, m: YearMonth) { n.createdMonth == m }

  /** A notice created outside month m leaves the bar of m unchanged. */
  lemma TallyIgnoresOtherMonths(ns: seq<Notice>, n: Notice, m: YearMonth)
    requires n.createdMonth != m
    ensures Tally(ns + [n], m) == Tally(ns, m)
  {
    assert (ns + [n])[..|ns|] == ns;
  }

  /** The bar of month m counts the notices of that month, the accepted ones
      among them, and the not-accepted, not-ignored ones among them; the last
      include records whose `accepted` is null, which the stats' pending group
      leaves out. */
  lemma {:induction false} TallyCounts(ns: seq<Notice>, m: YearMonth)
    ensures Tally(ns, m).total == CountWhere(ns, n => CreatedIn(n, m))
    ensures Tally(ns, m).accepted == CountWhere(ns, n => CreatedIn(n, m) && IsAccepted(n))
    ensures Tally(ns, m).pending == CountWhere(ns, n => CreatedIn(n, m) && IsLoosePending(n))
  {
    if ns != [] {
      var init, last := ns[..|ns| - 1], ns[|ns| - 1];
      assert ns == init + [last];
      TallyCounts(init, m);
      SelectAppend(init, [last], n => CreatedIn(n, m));
      SelectAppend(init, [last], n => CreatedIn(n, m) && IsAccepted(n));
      SelectAppend(init, [last], n => CreatedIn(n, m) && IsLoosePending(n));
    }
  }

  /** A null-accepted, non-ignored notice is pending in its month's bar but in
      no group of the stats. */
  lemma SeriesAndStatsDisagreeOnNull(n: Notice)
    requires n.accepted == None && n.status == "pending"
    ensures Tally([n], n.createdMonth).pending == 1
    ensures ComputeStats([n]).pending == 0
  {
    assert [n][..0] == [];
  }

  /** The monthly part of `loadDashboardData`: six zeroed buckets keyed by month
      from five months ago to the current one, then one pass over the notices
      that counts each one into its month's bucket when there is one. The
      buckets come out in the order they were created. */
  method MonthlySeries(ns: seq<Notice>, now: YearMonth) returns (series: seq<MonthlyData>)
    requires ValidMonth(now)
    ensures |series| == 6
    ensures forall k :: 0 <= k < 6 ==> series[k] == Tally(ns, MonthsBefore(now, 5 - k))
  {
    var months: map<YearMonth, MonthlyData> := map[];
    var order: seq<YearMonth> := [];
    var i := 5;
    while i >= 0
      invariant -1 <= i <= 5
      invariant |order| == 5 - i
      invariant forall k :: 0 <= k < |order| ==> order[k] == MonthsBefore(now, 5 - k)
      invariant forall k :: 0 <= k < |order| ==> order[k] in months
      invariant forall m :: m in months ==> months[m] == MonthlyData(m, 0, 0, 0)
    {
      var date := MonthsBefore(now, i);
      months := months[date := MonthlyData(date, 0, 0, 0)];
      order := order + [date];
      i := i - 1;
    }
    assert forall m :: m in months ==> months[m] == Tally(ns[..0], m);
    var j := 0;
    while j < |ns|
      invariant 0 <= j <= |ns|
      invariant forall k :: 0 <= k < 6 ==> order[k] in months
      invariant forall m :: m in months ==> months[m] == Tally(ns[..j], m)
    {
      var n := ns[j];
      var key := n.createdMonth;
      assert ns[..j + 1] == ns[..j] + [n];
      assert ns[..j + 1][..j] == ns[..j];
      if key in months {
        var bucket := months[key];
        bucket := bucket.(total := bucket.total + 1);
        if IsAccepted(n) {
          bucket := bucket.(accepted := bucket.accepted + 1);
        } else if n.status != "ignored" {
          bucket := bucket.(pending := bucket.pending + 1);
        }
        months := months[key := bucket];
      }
      j := j + 1;
    }
    assert ns[..|ns|] == ns;
    series := seq(6, k requires 0 <= k < 6 => months[order[k]]);
  }

  /** The dashboard component's state: the loading flag, the stats and the series. */
  class DashboardView {
    var isLoading: bool
    var stats: DashboardStats
    var monthlyData: seq<MonthlyData>

    constructor ()
      ensures isLoading && stats == InitialStats && monthlyData == []
    {
      isLoading := true;
      stats := InitialStats;
      monthlyData := [];
    }

    /** `loadDashboardData`, where `reply` is the query's outcome (None when the
        store reports an error) and `now` the current month. On an error the
        previous stats and series stay; either way loading ends. */
    method LoadDashboardData(reply: Option<seq<Notice>>, now: YearMonth)
      requires ValidMonth(now)
      modifies this
      ensures !isLoading
      ensures reply.None? ==> stats == old(stats) && monthlyData == old(monthlyData)
      ensures reply.Some? ==> stats == ComputeStats(reply.value)
      ensures reply.Some? ==> |monthlyData| == 6 && forall k :: 0 <= k < 6 ==>
                monthlyData[k] == Tally(reply.value, MonthsBefore(now, 5 - k))
    {
      isLoading := true;
      if reply.Some? {
        var notifications := reply.value;
        stats := ComputeStats(notifications);
        monthlyData := MonthlySeries(notifications, now);
      }
      isLoading := false;
    }
  }
}

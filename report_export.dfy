/** The report export panel: the status filter applied to the fetched rows,
    the PDF report (summary counts, clipped row cells, the row layout across
    pages) and the CSV report. */
module ReportExport {
  import opened Text
  import opened Notices
  import opened CsvFormat

  // ---------------------------------------------------------------------------
  // fetchFilteredData: the status filter

  datatype StatusFilter = All | AcceptedOnly | PendingOnly | IgnoredOnly

  /** The record test each filter choice applies. */
  predicate Matches(f: StatusFilter, n: Notice) {
    match f
    case All => true
    case AcceptedOnly => IsAccepted(n)
    case PendingOnly => IsStrictlyPending(n)
    case IgnoredOnly => IsIgnored(n)
  }

  /** The filter step of `fetchFilteredData`: an order-preserving sublist that
      keeps every copy of each matching record and nothing else; 'all' keeps
      the list as it is. */
  function FilterByStatus(ns: seq<Notice>, f: StatusFilter): (r: seq<Notice>)
    ensures IsSublist(r, ns)
    ensures forall n :: multiset(r)[n] == if Matches(f, n) then multiset(ns)[n] else 0
    ensures f == All ==> r == ns
  {
    match f
    case All =>
      SublistReflexive(ns);
      ns
    case AcceptedOnly =>
      SelectIsSublist(ns, IsAccepted);
      SelectKeepsMatches(ns, IsAccepted, f);
      Select(ns, IsAccepted)
    case PendingOnly =>
      SelectIsSublist(ns, IsStrictlyPending);
      SelectKeepsMatches(ns, IsStrictlyPending, f);
      Select(ns, IsStrictlyPending)
    case IgnoredOnly =>
      SelectIsSublist(ns, IsIgnored);
      SelectKeepsMatches(ns, IsIgnored, f);
      Select(ns, IsIgnored)
  }

  lemma SelectKeepsMatches(ns: seq<Notice>, p: Notice -> bool, f: StatusFilter)
    requires forall n :: p(n) == Matches(f, n)
    ensures forall n :: multiset(Select(ns, p))[n] == if Matches(f, n) then multiset(ns)[n] else 0
  {
    forall n {
      SelectMultiplicity(ns, p, n);
    }
  }

  /** The query outcome of `fetchFilteredData` after the status filter: None
      when the store reports an error (which is thrown to the caller); the
      date-range bounds are applied by the store before the rows arrive. */
  function FetchFilteredData(reply: Option<seq<Notice>>, f: StatusFilter): (r: Option<seq<Notice>>)
    ensures r.Some? <==> reply.Some?
    ensures r.Some? ==> r.value == FilterByStatus(reply.value, f) && IsSublist(r.value, reply.value)
  {
    match reply
    case None => None
    case Some(data) => Some(FilterByStatus(data, f))
  }

  // ---------------------------------------------------------------------------
  // The status label shared by the PDF and the CSV rows

  function StatusLabel(n: Notice): (l: string)
    ensures l == "Aceita" <==> IsAccepted(n)
    ensures l == "Ignorada" <==> !IsAccepted(n) && IsIgnored(n)
    ensures l == "Pendente" <==> IsLoosePending(n)
  {
    if IsAccepted(n) then "Aceita" else if IsIgnored(n) then "Ignorada" else "Pendente"
  }

  // ---------------------------------------------------------------------------
  // exportToPDF: the summary line

  datatype PdfSummary = PdfSummary(totalValue: int, acceptedCount: nat, pendingCount: nat)

  predicate IgnoredNotAccepted(n: Notice) { !IsAccepted(n) && IsIgnored(n) }

  /** The totals of the summary line. Accepted and pending (both tested by
      truthiness) never overlap: with the ignored, not-accepted records they
      count every row exactly once. */
  function Summarize(data: seq<Notice>): (s: PdfSummary)
    ensures s.acceptedCount == CountWhere(data, IsAccepted) && s.pendingCount == CountWhere(data, IsLoosePending)
    ensures s.totalValue == TotalCents(data)
    ensures s.acceptedCount + s.pendingCount + CountWhere(data, IgnoredNotAccepted) == |data|
    ensures s.acceptedCount + s.pendingCount <= |data|
    ensures NonNegativeAmounts(data) ==> s.totalValue >= 0
  {
    SummaryPartition(data);
    SumNonNegative(data);
    PdfSummary(TotalCents(data), CountWhere(data, IsAccepted), CountWhere(data, IsLoosePending))
  }

  lemma {:induction false} SummaryPartition(data: seq<Notice>)
    ensures CountWhere(data, IsAccepted) + CountWhere(data, IsLoosePending)
            + CountWhere(data, IgnoredNotAccepted) == |data|
  {
    if data != [] {
      SummaryPartition(data[1..]);
      CountWhereCons(data, IsAccepted);
      CountWhereCons(data, IsLoosePending);
      CountWhereCons(data, IgnoredNotAccepted);
    }
  }

  lemma {:induction false} SumNonNegative(data: seq<Notice>)
    ensures NonNegativeAmounts(data) ==> TotalCents(data) >= 0
  {
    if data != [] {
      SumNonNegative(data[1..]);
      assert NonNegativeAmounts(data) ==> NonNegativeAmounts(data[1..]);
    }
  }

  /** Exporting only the accepted records reports all of them accepted and
      none pending; exporting only the pending ones reports the reverse. */
  lemma SummaryUnderFilter(data: seq<Notice>)
    ensures var s := Summarize(FilterByStatus(data, AcceptedOnly));
            s.acceptedCount == |FilterByStatus(data, AcceptedOnly)| && s.pendingCount == 0
    ensures var s := Summarize(FilterByStatus(data, PendingOnly));
            s.pendingCount == |FilterByStatus(data, PendingOnly)| && s.acceptedCount == 0
  {
    AcceptedOnlySummary(data);
    PendingOnlySummary(data);
  }

  lemma AcceptedOnlySummary(data: seq<Notice>)
    ensures var s := Summarize(FilterByStatus(data, AcceptedOnly));
            s.acceptedCount == |FilterByStatus(data, AcceptedOnly)| && s.pendingCount == 0
  {
    var r := Select(data, IsAccepted);
    assert FilterByStatus(data, AcceptedOnly) == r;
    SelectAll(r, IsAccepted);
    NoneSelected(r, IsLoosePending);
  }

  lemma PendingOnlySummary(data: seq<Notice>)
    ensures var s := Summarize(FilterByStatus(data, PendingOnly));
            s.pendingCount == |FilterByStatus(data, PendingOnly)| && s.acceptedCount == 0
  {
    var r := Select(data, IsStrictlyPending);
    assert FilterByStatus(data, PendingOnly) == r;
    SelectAll(r, IsLoosePending);
    NoneSelected(r, IsAccepted);
  }

  // ---------------------------------------------------------------------------
  // exportToPDF: the cells of a table row

  /** `s.substring(0, k) || ''`: at most the first k characters. */
  function Clip(s: string, k: nat): (r: string)
    ensures |r| <= k && r <= s
    ensures |s| <= k ==> r == s
    ensures |s| >= k ==> |r| == k
  {
    if |s| <= k then s else s[..k]
  }

  /** The pattern occurs in s at index i. */
  predicate OccursAt(s: string, pattern: string, i: nat) {
    i + |pattern| <= |s| && s[i..i + |pattern|] == pattern
  }

  /** `s.replace(pattern, '')` with a string pattern: the first occurrence of
      the pattern is removed, and a text without it is left as it is. */
  function RemoveFirst(s: string, pattern: string): (r: string)
    requires |pattern| >= 1
    ensures (forall i: nat :: !OccursAt(s, pattern, i)) ==> r == s
    ensures (exists i: nat :: OccursAt(s, pattern, i)) ==> |r| == |s| - |pattern|
    ensures (exists i: nat :: OccursAt(s, pattern, i)) ==>
              exists i: nat :: FirstOccurrence(s, pattern, i) && r == s[..i] + s[i + |pattern|..]
    decreases |s|
  {
    if |s| < |pattern| then s
    else if s[..|pattern|] == pattern then
      assert OccursAt(s, pattern, 0);
      assert FirstOccurrence(s, pattern, 0) && s[|pattern|..] == s[..0] + s[0 + |pattern|..];
      s[|pattern|..]
    else
      OccurrenceInTail(s, pattern);
      var rest := RemoveFirst(s[1..], pattern);
      FirstOccurrenceInTail(s, pattern, rest);
      [s[0]] + rest
  }

  /** i is the first index where the pattern occurs in s. */
  predicate FirstOccurrence(s: string, pattern: string, i: nat) {
    OccursAt(s, pattern, i) && forall j: nat :: j < i ==> !OccursAt(s, pattern, j)
  }

  /** The first occurrence in the tail, one index later, is the first in s,
      and removing it from the tail then putting back the head removes it
      from s. */
  lemma FirstOccurrenceInTail(s: string, pattern: string, rest: string)
    requires |s| >= 1 && |pattern| >= 1 && !OccursAt(s, pattern, 0)
    requires forall i: nat :: OccursAt(s[1..], pattern, i) <==> OccursAt(s, pattern, i + 1)
    requires (exists i: nat :: OccursAt(s, pattern, i)) ==> (exists i: nat :: OccursAt(s[1..], pattern, i))
    requires (exists i: nat :: OccursAt(s[1..], pattern, i)) ==>
               exists i: nat :: FirstOccurrence(s[1..], pattern, i) && rest == s[1..][..i] + s[1..][i + |pattern|..]
    ensures (exists i: nat :: OccursAt(s, pattern, i)) ==>
              exists i: nat :: FirstOccurrence(s, pattern, i) && [s[0]] + rest == s[..i] + s[i + |pattern|..]
  {
    if exists i: nat :: OccursAt(s, pattern, i) {
      var i: nat :| FirstOccurrence(s[1..], pattern, i) && rest == s[1..][..i] + s[1..][i + |pattern|..];
      FirstOccurrenceShift(s, pattern, i);
      RemovalShift(s, pattern, i, rest);
    }
  }

  lemma FirstOccurrenceShift(s: string, pattern: string, i: nat)
    requires |s| >= 1 && !OccursAt(s, pattern, 0)
    requires forall k: nat :: OccursAt(s[1..], pattern, k) <==> OccursAt(s, pattern, k + 1)
    requires FirstOccurrence(s[1..], pattern, i)
    ensures FirstOccurrence(s, pattern, i + 1)
  {
    forall j: nat | j < i + 1
      ensures !OccursAt(s, pattern, j)
    {
      if j >= 1 {
        assert !OccursAt(s[1..], pattern, j - 1);
      }
    }
  }

  lemma RemovalShift(s: string, pattern: string, i: nat, rest: string)
    requires |s| >= 1 && i + |pattern| <= |s| - 1
    requires rest == s[1..][..i] + s[1..][i + |pattern|..]
    ensures [s[0]] + rest == s[..i + 1] + s[i + 1 + |pattern|..]
  {
    assert s[1..][..i] == s[1..i + 1];
    assert s[1..][i + |pattern|..] == s[i + 1 + |pattern|..];
    assert [s[0]] + s[1..i + 1] == s[..i + 1];
  }

  /** Past the first character, occurrences in s are those in its tail, one index later. */
  lemma OccurrenceInTail(s: string, pattern: string)
    requires |s| >= 1 && |pattern| >= 1 && !OccursAt(s, pattern, 0)
    ensures forall i: nat :: OccursAt(s[1..], pattern, i) <==> OccursAt(s, pattern, i + 1)
    ensures (exists i: nat :: OccursAt(s, pattern, i)) ==> (exists i: nat :: OccursAt(s[1..], pattern, i))
  {
    forall i: nat
      ensures OccursAt(s[1..], pattern, i) <==> OccursAt(s, pattern, i + 1)
    {
      if i + |pattern| <= |s[1..]| {
        var inTail := s[1..][i..i + |pattern|];
        var inS := s[i + 1..i + 1 + |pattern|];
        assert forall k :: 0 <= k < |inTail| ==> inTail[k] == inS[k];
        assert inTail == inS;
      }
    }
    if exists i: nat :: OccursAt(s, pattern, i) {
      var i: nat :| OccursAt(s, pattern, i);
      assert i >= 1;
      assert OccursAt(s[1..], pattern, i - 1);
    }
  }

  /** A negative amount formatted with the minus before the currency sign
      loses the sign and keeps the minus. */
  lemma RemoveCurrencySignAfterMinus(amount: string)
    ensures RemoveFirst("-R$" + amount, "R$") == "-" + amount
  {
    var s := "-R$" + amount;
    assert s[..2] != "R$" by { assert s[0] == '-'; }
    assert s[1..] == "R$" + amount;
    RemoveCurrencySign(amount);
  }

  /** A currency text that starts with the currency sign loses exactly that sign. */
  lemma RemoveCurrencySign(amount: string)
    ensures RemoveFirst("R$" + amount, "R$") == amount
  {
    assert ("R$" + amount)[..2] == "R$";
  }

  const PdfHeaders: seq<string> := ["Token", "Credor", "Devedor", "Valor", "Status", "Data Emissão", "Data Aceite"]

  const ColWidths: seq<int> := [35, 45, 45, 25, 25, 45, 45]

  /** The seven cells of a table row. `currency` and `date` stand for the
      locale formatters `formatCurrency` and `formatDate`. */
  function PdfRowCells(n: Notice, currency: int -> string, date: string -> string): (cells: seq<string>)
    ensures |cells| == |PdfHeaders| == |ColWidths|
    ensures cells[0] == Clip(n.token, 20) && |cells[0]| <= 20 && cells[0] <= n.token
    ensures cells[1] == Clip(n.creditor.name, 25) && |cells[1]| <= 25 && cells[1] <= n.creditor.name
    ensures cells[2] == Clip(n.debtor.name, 25) && |cells[2]| <= 25 && cells[2] <= n.debtor.name
    ensures cells[3] == RemoveFirst(currency(n.debtAmount), "R$")
    ensures cells[4] == StatusLabel(n)
    ensures cells[5] == date(n.createdAt)
    ensures cells[6] == "-" <== n.acceptedAt.None? || n.acceptedAt == Some("")
    ensures n.acceptedAt.Some? && n.acceptedAt.value != "" ==> cells[6] == date(n.acceptedAt.value)
  {
    [ Clip(n.token, 20),
      Clip(n.creditor.name, 25),
      Clip(n.debtor.name, 25),
      RemoveFirst(currency(n.debtAmount), "R$"),
      StatusLabel(n),
      date(n.createdAt),
      if n.acceptedAt.Some? && n.acceptedAt.value != "" then date(n.acceptedAt.value) else "-" ]
  }

  /** The cells of every table row, in row order. */
  function PdfCells(data: seq<Notice>, currency: int -> string, date: string -> string): (cells: seq<seq<string>>)
    ensures |cells| == |data|
    ensures forall i :: 0 <= i < |data| ==> cells[i] == PdfRowCells(data[i], currency, date)
  {
    seq(|data|, i requires 0 <= i < |data| => PdfRowCells(data[i], currency, date))
  }

  // ---------------------------------------------------------------------------
  // exportToPDF: column positions and the row layout

  const Margin: int := 15
  /** Where the table header sits: the title at the margin, then 10, 10 and
      15 down to the header row. */
  const HeaderY: int := Margin + 10 + 10 + 15
  /** Where the first data row sits: 8 below the header row. */
  const TableStartY: int := HeaderY + 8
  const RowHeight: int := 7
  /** Rows do not start below this distance from the bottom edge. */
  const BottomReserve: real := 20.0

  function SumInts(xs: seq<int>): int {
    if xs == [] then 0 else SumInts(xs[..|xs| - 1]) + xs[|xs| - 1]
  }

  /** The `xPos` walk of the header and of each row: every column starts 2
      after the margin plus the widths of the columns before it. */
  method ColumnStarts() returns (xs: seq<int>)
    ensures |xs| == |ColWidths|
    ensures forall i :: 0 <= i < |xs| ==> xs[i] == Margin + 2 + SumInts(ColWidths[..i])
  {
    var xPos := Margin + 2;
    xs := [];
    var i := 0;
    while i < |ColWidths|
      invariant 0 <= i <= |ColWidths| && |xs| == i
      invariant xPos == Margin + 2 + SumInts(ColWidths[..i])
      invariant forall k :: 0 <= k < i ==> xs[k] == Margin + 2 + SumInts(ColWidths[..k])
    {
      xs := xs + [xPos];
      assert ColWidths[..i + 1][..i] == ColWidths[..i];
      xPos := xPos + ColWidths[i];
      i := i + 1;
    }
  }

  /** On an A4 landscape page (297 mm wide) the last column ends exactly at
      the right margin, where the shaded band ends. */
  lemma ColumnsFitA4Landscape()
    ensures SumInts(ColWidths) == 265
    ensures Margin + 2 + SumInts(ColWidths) == 297 - Margin
  {
    var w := ColWidths;
    assert w[..1][..0] == [];
    assert SumInts(w[..1]) == 35;
    assert w[..2][..1] == w[..1];
    assert SumInts(w[..2]) == 80;
    assert w[..3][..2] == w[..2];
    assert SumInts(w[..3]) == 125;
    assert w[..4][..3] == w[..3];
    assert SumInts(w[..4]) == 150;
    assert w[..5][..4] == w[..4];
    assert SumInts(w[..5]) == 175;
    assert w[..6][..5] == w[..5];
    assert SumInts(w[..6]) == 220;
    assert w[..6] == w[..|w| - 1];
  }

  /** Where a data row is drawn: its page, its `yPos`, and whether it gets the
      shaded background. */
  datatype RowPlacement = RowPlacement(page: nat, y: int, shaded: bool)

  /** One step of the row loop: a row about to start below the reserve opens a
      new page at the top margin; rows with an even index are shaded. */
  function Place(page: nat, yPos: int, index: nat, pageHeight: real): (p: RowPlacement)
    ensures p.shaded <==> index % 2 == 0
    ensures p.page == page || (p.page == page + 1 && p.y == Margin)
    ensures Margin <= yPos ==> Margin <= p.y && ((p.y as real) <= pageHeight - BottomReserve || p.y == Margin)
  {
    if (yPos as real) > pageHeight - BottomReserve then RowPlacement(page + 1, Margin, index % 2 == 0)
    else RowPlacement(page, yPos, index % 2 == 0)
  }

  /** Row i is shaded exactly when i is even and starts above the bottom
      reserve or at the top of a page. */
  predicate WellPlaced(r: RowPlacement, i: nat, pageHeight: real) {
    (r.shaded <==> i % 2 == 0)
    && Margin <= r.y && ((r.y as real) <= pageHeight - BottomReserve || r.y == Margin)
  }

  /** The page the last row is on (page 1 before any row). */
  function LastPage(rows: seq<RowPlacement>): nat {
    if rows == [] then 1 else rows[|rows| - 1].page
  }

  /** Where the loop puts the next row before the page-break test. */
  function NextY(rows: seq<RowPlacement>): int {
    if rows == [] then TableStartY else rows[|rows| - 1].y + RowHeight
  }

  /** The rows laid out so far follow the loop: each is well placed, the
      first is placed at the table start on page 1, each next one 7 below the
      previous or on the next page, and no row is past the last row's page. */
  predicate Laid(rows: seq<RowPlacement>, pageHeight: real) {
    && (forall i :: 0 <= i < |rows| ==> WellPlaced(rows[i], i, pageHeight))
    && (|rows| > 0 ==> rows[0] == Place(1, TableStartY, 0, pageHeight))
    && (forall i :: 0 < i < |rows| ==> rows[i] == Place(rows[i - 1].page, rows[i - 1].y + RowHeight, i, pageHeight))
    && (forall i :: 0 <= i < |rows| ==> 1 <= rows[i].page <= LastPage(rows))
  }

  /** Placing one more row keeps the layout. */
  lemma LaidStep(rows: seq<RowPlacement>, pageHeight: real)
    requires Laid(rows, pageHeight)
    ensures var p := Place(LastPage(rows), NextY(rows), |rows|, pageHeight);
            Laid(rows + [p], pageHeight) && LastPage(rows + [p]) == p.page && NextY(rows + [p]) == p.y + RowHeight
  {
    var p := Place(LastPage(rows), NextY(rows), |rows|, pageHeight);
    assert Margin <= NextY(rows);
    StepPlaced(rows, p, pageHeight);
    StepChained(rows, p, pageHeight);
    StepPages(rows, p);
  }

  lemma StepPlaced(rows: seq<RowPlacement>, p: RowPlacement, pageHeight: real)
    requires forall i :: 0 <= i < |rows| ==> WellPlaced(rows[i], i, pageHeight)
    requires WellPlaced(p, |rows|, pageHeight)
    ensures forall i :: 0 <= i < |rows| + 1 ==> WellPlaced((rows + [p])[i], i, pageHeight)
  {
    var after := rows + [p];
    assert forall i :: 0 <= i < |rows| ==> after[i] == rows[i];
  }

  lemma StepChained(rows: seq<RowPlacement>, p: RowPlacement, pageHeight: real)
    requires |rows| > 0 ==> rows[0] == Place(1, TableStartY, 0, pageHeight)
    requires forall i :: 0 < i < |rows| ==> rows[i] == Place(rows[i - 1].page, rows[i - 1].y + RowHeight, i, pageHeight)
    requires p == Place(LastPage(rows), NextY(rows), |rows|, pageHeight)
    ensures (rows + [p])[0] == Place(1, TableStartY, 0, pageHeight)
    ensures forall i :: 0 < i < |rows| + 1 ==>
              (rows + [p])[i] == Place((rows + [p])[i - 1].page, (rows + [p])[i - 1].y + RowHeight, i, pageHeight)
  {
    var after := rows + [p];
    assert forall i :: 0 <= i < |rows| ==> after[i] == rows[i];
  }

  lemma StepPages(rows: seq<RowPlacement>, p: RowPlacement)
    requires forall i :: 0 <= i < |rows| ==> 1 <= rows[i].page <= LastPage(rows)
    requires 1 <= LastPage(rows) <= p.page
    ensures forall i :: 0 <= i < |rows| + 1 ==> 1 <= (rows + [p])[i].page <= p.page
  {
    var after := rows + [p];
    assert forall i :: 0 <= i < |rows| ==> after[i] == rows[i];
  }

  /** The row loop of `exportToPDF` for `count` rows on pages `pageHeight`
      high. Every row either starts above the reserve at the bottom of its
      page or is the first row of a fresh page; no row starts above the top
      margin; even rows are shaded; each row follows the previous one by 7 or
      opens the next page; `pages` is the number of pages used. */
  method LayoutRows(count: nat, pageHeight: real) returns (rows: seq<RowPlacement>, pages: nat)
    ensures |rows| == count
    ensures forall i :: 0 <= i < count ==> (rows[i].shaded <==> i % 2 == 0)
    ensures forall i :: 0 <= i < count ==>
              Margin <= rows[i].y && ((rows[i].y as real) <= pageHeight - BottomReserve || rows[i].y == Margin)
    ensures count > 0 ==> rows[0] == Place(1, TableStartY, 0, pageHeight)
    ensures forall i :: 0 < i < count ==> rows[i] == Place(rows[i - 1].page, rows[i - 1].y + RowHeight, i, pageHeight)
    ensures pages == if count == 0 then 1 else rows[count - 1].page
    ensures forall i :: 0 <= i < count ==> 1 <= rows[i].page <= pages
    ensures Laid(rows, pageHeight) && pages == LastPage(rows)
  {
    var yPos := TableStartY;
    var page := 1;
    rows := [];
    var index := 0;
    while index < count
      invariant 0 <= index <= count && |rows| == index
      invariant Laid(rows, pageHeight)
      invariant page == LastPage(rows) && yPos == NextY(rows)
    {
      var p := Place(page, yPos, index, pageHeight);
      LaidStep(rows, pageHeight);
      rows := rows + [p];
      page := p.page;
      yPos := p.y + RowHeight;
      index := index + 1;
    }
    pages := page;
  }

  // ---------------------------------------------------------------------------
  // exportToExcel: the CSV report

  const CsvHeaders: seq<string> := [
    "Token", "Credor", "CPF/CNPJ Credor", "Devedor", "CPF/CNPJ Devedor", "Valor",
    "Data Vencimento", "Status", "Data Emissão", "Data Aceite", "IP Aceite",
    "Hash Aceite", "Endereço Imóvel", "Descrição"]

  /** `value || ''` on a nullable text column. */
  function OrEmpty(o: Option<string>): (r: string)
    ensures o.None? ==> r == ""
    ensures o.Some? ==> r == o.value
  {
    match o
    case None => ""
    case Some(s) => s
  }

  /** The fraction digits `String` writes for a number of cents below 100:
      none for a whole amount, one for a multiple of ten, else two. */
  function FractionText(f: nat): (r: string)
    requires f < 100
  {
    if f == 0 then "" else if f % 10 == 0 then ['.', DigitChar(f / 10)] else ['.', DigitChar(f / 10), DigitChar(f % 10)]
  }

  /** `String(debt_amount)` for an amount held in cents: the shortest decimal
      text of the amount, with a '-' for a negative amount and no trailing
      zero in the fraction. */
  function CentsText(c: int): (r: string)
    ensures |r| >= 1
  {
    var a := if c < 0 then -c else c;
    (if c < 0 then "-" else "") + UnsignedCentsText(a / 100, a % 100)
  }

  /** The text of whole units q and f cents, without a sign. */
  function UnsignedCentsText(q: nat, f: nat): (r: string)
    requires f < 100
    ensures |r| >= 1 && r[0] != '-'
  {
    NatText(q) + FractionText(f)
  }

  function FractionValue(f: string): nat
    requires |f| <= 2 && AllDigits(f)
  {
    if |f| == 0 then 0 else if |f| == 1 then 10 * DigitValue(f[0]) else 10 * DigitValue(f[0]) + DigitValue(f[1])
  }

  /** Splits an amount text at its first '.': the whole part and the fraction digits. */
  function SplitAmount(body: string): (string, string) {
    match IndexOf(body, '.')
    case None => (body, "")
    case Some(i) => (body[..i], body[i + 1..])
  }

  /** Reads digits with an optional '.' and at most two fraction digits as cents. */
  function ParseUnsignedCents(body: string): Option<nat> {
    var (whole, frac) := SplitAmount(body);
    if whole == [] || !AllDigits(whole) || !AllDigits(frac) || |frac| > 2 then None
    else Some(ParseNat(whole) * 100 + FractionValue(frac))
  }

  /** Reads a decimal amount, possibly negative, back into cents. */
  function ParseCents(s: string): Option<int> {
    if |s| >= 1 && s[0] == '-' then
      match ParseUnsignedCents(s[1..])
      case None => None
      case Some(v) => Some(-(v as int))
    else
      match ParseUnsignedCents(s)
      case None => None
      case Some(v) => Some(v as int)
  }

  lemma FractionRoundTrip(f: nat)
    requires f < 100
    ensures f > 0 ==> FractionText(f)[0] == '.' && |FractionText(f)| <= 3
    ensures f > 0 ==> AllDigits(FractionText(f)[1..]) && FractionValue(FractionText(f)[1..]) == f
    ensures f == 0 ==> FractionText(f) == ""
  {
  }

  /** Whole units and cents read back as whole * 100 + cents. */
  lemma CentsPartsRoundTrip(q: nat, f: nat)
    requires f < 100
    ensures ParseUnsignedCents(UnsignedCentsText(q, f)) == Some(q * 100 + f)
  {
    NatTextRoundTrip(q);
    if f == 0 {
      assert UnsignedCentsText(q, f) == NatText(q);
      ParseWholeCents(NatText(q));
    } else {
      FractionalCents(q, f);
    }
  }

  lemma FractionalCents(q: nat, f: nat)
    requires 0 < f < 100
    ensures ParseUnsignedCents(UnsignedCentsText(q, f)) == Some(ParseNat(NatText(q)) * 100 + f)
  {
    var w := NatText(q);
    var digits := FractionText(f)[1..];
    assert |digits| <= 2 && AllDigits(digits) && FractionValue(digits) == f by {
      FractionRoundTrip(f);
    }
    assert UnsignedCentsText(q, f) == w + ['.'] + digits by {
      FractionRoundTrip(f);
      assert FractionText(f) == ['.'] + digits;
    }
    ParseFractionalCents(w, digits);
  }

  lemma ParseWholeCents(w: string)
    requires |w| >= 1 && AllDigits(w)
    ensures ParseUnsignedCents(w) == Some(ParseNat(w) * 100)
  {
    assert IndexOf(w, '.') == None;
    assert SplitAmount(w) == (w, "");
  }

  lemma ParseFractionalCents(w: string, digits: string)
    requires |w| >= 1 && AllDigits(w)
    requires |digits| <= 2 && AllDigits(digits)
    ensures ParseUnsignedCents(w + ['.'] + digits) == Some(ParseNat(w) * 100 + FractionValue(digits))
  {
    var body := w + ['.'] + digits;
    assert SplitAmount(body) == (w, digits) by {
      IndexOfAfter(w, '.', digits);
      assert body[..|w|] == w;
      assert body[|w| + 1..] == digits;
    }
    ParseSplitAmount(body, w, digits);
  }

  lemma ParseSplitAmount(body: string, w: string, digits: string)
    requires SplitAmount(body) == (w, digits)
    requires |w| >= 1 && AllDigits(w) && |digits| <= 2 && AllDigits(digits)
    ensures ParseUnsignedCents(body) == Some(ParseNat(w) * 100 + FractionValue(digits))
  {
  }

  /** The amount cell reads back as the amount it was written from. */
  lemma CentsTextRoundTrip(c: int)
    ensures ParseCents(CentsText(c)) == Some(c)
  {
    if c < 0 {
      NegativeCentsRoundTrip(c);
    } else {
      UnsignedRoundTrip(c);
      assert CentsText(c) == UnsignedCentsText(c / 100, c % 100);
    }
  }

  lemma NegativeCentsRoundTrip(c: int)
    requires c < 0
    ensures ParseCents(CentsText(c)) == Some(c)
  {
    var a: nat := -c;
    var body := UnsignedCentsText(a / 100, a % 100);
    assert CentsText(c) == "-" + body;
    assert ParseCents("-" + body) == Some(c) by {
      UnsignedRoundTrip(a);
      ParseNegative(body, a);
    }
  }

  lemma ParseNegative(body: string, v: nat)
    requires ParseUnsignedCents(body) == Some(v)
    ensures ParseCents("-" + body) == Some(-(v as int))
  {
    assert ("-" + body)[1..] == body;
  }

  lemma UnsignedRoundTrip(a: nat)
    ensures ParseUnsignedCents(UnsignedCentsText(a / 100, a % 100)) == Some(a)
  {
    CentsPartsRoundTrip(a / 100, a % 100);
    assert a / 100 * 100 + a % 100 == a;
  }

  /** The fourteen cells of a CSV data row, before quoting. */
  function CsvRowCells(n: Notice): (cells: seq<string>)
    ensures |cells| == |CsvHeaders| == 14
    ensures cells[0] == n.token
    ensures cells[1] == n.creditor.name && cells[2] == n.creditor.document
    ensures cells[3] == n.debtor.name && cells[4] == n.debtor.document
    ensures cells[5] == CentsText(n.debtAmount)
    ensures cells[6] == n.dueDate
    ensures cells[7] == StatusLabel(n)
    ensures cells[8] == n.createdAt
    ensures n.acceptedAt.None? ==> cells[9] == ""
    ensures n.acceptedAt.Some? ==> cells[9] == n.acceptedAt.value
    ensures n.acceptanceIp.None? ==> cells[10] == ""
    ensures n.acceptanceIp.Some? ==> cells[10] == n.acceptanceIp.value
    ensures n.acceptanceHash.None? ==> cells[11] == ""
    ensures n.acceptanceHash.Some? ==> cells[11] == n.acceptanceHash.value
    ensures cells[12] == n.propertyAddress && cells[13] == n.debtDescription
  {
    [ n.token,
      n.creditor.name,
      n.creditor.document,
      n.debtor.name,
      n.debtor.document,
      CentsText(n.debtAmount),
      n.dueDate,
      StatusLabel(n),
      n.createdAt,
      OrEmpty(n.acceptedAt),
      OrEmpty(n.acceptanceIp),
      OrEmpty(n.acceptanceHash),
      n.propertyAddress,
      n.debtDescription ]
  }

  function CsvRows(data: seq<Notice>): (rows: seq<seq<string>>)
    ensures |rows| == |data|
    ensures forall i :: 0 <= i < |data| ==> rows[i] == CsvRowCells(data[i])
  {
    seq(|data|, i requires 0 <= i < |data| => CsvRowCells(data[i]))
  }

  /** The text `exportToExcel` puts in the file. */
  function ExportCsv(data: seq<Notice>): string {
    CsvDocument(CsvHeaders, CsvRows(data))
  }

  lemma CsvHeadersArePlain()
    ensures PlainHeader(CsvHeaders)
  {
    forall j | 0 <= j < |CsvHeaders|
      ensures Excludes(CsvHeaders[j], ';') && Excludes(CsvHeaders[j], '\n')
    {
      HeaderPlain(j);
    }
  }

  /** No fixed header name holds ';' or a line break. */
  lemma HeaderPlain(j: nat)
    requires j < |CsvHeaders|
    ensures ';' !in CsvHeaders[j] && '\n' !in CsvHeaders[j]
  {
    if j < 7 {
      HeadPlain(j);
    } else {
      TailPlain(j - 7);
    }
  }

  lemma HeadPlain(j: nat)
    requires j < 7
    ensures ';' !in CsvHeaders[j] && '\n' !in CsvHeaders[j]
  {
  }

  lemma TailPlain(j: nat)
    requires j < 7
    ensures ';' !in CsvHeaders[7 + j] && '\n' !in CsvHeaders[7 + j]
  {
  }

  /** Reading the exported file back gives the fourteen header names and, for
      every exported record in order, its fourteen cells exactly, so nothing a
      cell holds (quotes, ';', line breaks) breaks the layout; the amount cell
      reads back as the amount. */
  lemma CsvExportRoundTrip(data: seq<Notice>)
    ensures ParseDocument(ExportCsv(data)) == Some((CsvHeaders, CsvRows(data)))
    ensures forall i :: 0 <= i < |data| ==> ParseCents(CsvRows(data)[i][5]) == Some(data[i].debtAmount)
  {
    CsvHeadersArePlain();
    DocumentRoundTrip(CsvHeaders, CsvRows(data));
    forall i | 0 <= i < |data|
      ensures ParseCents(CsvRows(data)[i][5]) == Some(data[i].debtAmount)
    {
      CentsTextRoundTrip(data[i].debtAmount);
    }
  }

  // ---------------------------------------------------------------------------
  // The panel

  /** What the PDF holds apart from fixed texts: the summary, the cells of
      every row, where every row goes, and the page count. */
  datatype PdfReport = PdfReport(
    summary: PdfSummary,
    cells: seq<seq<string>>,
    placements: seq<RowPlacement>,
    pages: nat)

  class ReportPanel {
    var isExporting: bool
    var startDate: string
    var endDate: string
    var statusFilter: StatusFilter

    constructor ()
      ensures !isExporting && startDate == "" && endDate == "" && statusFilter == All
    {
      isExporting := false;
      startDate := "";
      endDate := "";
      statusFilter := All;
    }

    /** `exportToPDF`, with `reply` the query outcome, `pageHeight` the page
        height jsPDF reports and `currency`/`date` the locale formatters. A
        failed query produces no report; either way exporting ends. */
    method ExportToPdf(reply: Option<seq<Notice>>, pageHeight: real, currency: int -> string, date: string -> string)
      returns (report: Option<PdfReport>)
      modifies this
      ensures !isExporting
      ensures startDate == old(startDate) && endDate == old(endDate) && statusFilter == old(statusFilter)
      ensures report.Some? <==> reply.Some?
      ensures report.Some? ==>
                var data := FilterByStatus(reply.value, statusFilter);
                report.value.summary == Summarize(data)
                && |report.value.cells| == |data| == |report.value.placements|
                && (forall i :: 0 <= i < |data| ==> report.value.cells[i] == PdfRowCells(data[i], currency, date))
                && Laid(report.value.placements, pageHeight)
                && report.value.pages == LastPage(report.value.placements)
    {
      isExporting := true;
      var fetched := FetchFilteredData(reply, statusFilter);
      if fetched.None? {
        report := None;
      } else {
        var data := fetched.value;
        var cells := PdfCells(data, currency, date);
        var placements, pages := LayoutRows(|data|, pageHeight);
        report := Some(PdfReport(Summarize(data), cells, placements, pages));
      }
      isExporting := false;
    }

    /** `exportToExcel`, with `reply` the query outcome: the file text, or
        nothing when the query failed; either way exporting ends. */
    method ExportToExcel(reply: Option<seq<Notice>>) returns (file: Option<string>)
      modifies this
      ensures !isExporting
      ensures startDate == old(startDate) && endDate == old(endDate) && statusFilter == old(statusFilter)
      ensures file.Some? <==> reply.Some?
      ensures file.Some? ==> file.value == ExportCsv(FilterByStatus(reply.value, statusFilter))
    {
      isExporting := true;
      var fetched := FetchFilteredData(reply, statusFilter);
      if fetched.None? {
        file := None;
      } else {
        file := Some(ExportCsv(fetched.value));
      }
      isExporting := false;
    }
  }
}

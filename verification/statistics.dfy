/** `StatisticsController`: the dashboard tiles with their month-on-month
    change, and the performance block. Percentages are held in tenths of a
    percent and amounts in hundredths, so `round(x, 1)` is exact. */
module Statistics {

  import opened Wrappers
  import opened Table
  import opened Text
  import Arith
  import Store
  import StatusQuery
  import ClientRepository
  import QuoteRepository
  import ClientEntity
  import QuoteEntity
  import AppointmentEntity
  import QuoteController

  // --- calculatePercentageChange --------------------------------------------

  datatype ChangeType = Positive | Negative | Neutral

  /** The `{text, type}` pair the dashboard shows under each tile. */
  datatype Change = Change(text: string, kind: ChangeType)

  /** `round(($new - $old) / $old * 100, 1)`, in tenths of a percent. */
  function ChangeTenths(before: int, after: int): (t: int)
    requires before != 0
    ensures before > 0 && after >= before ==> t >= 0
    ensures before > 0 && after <= before ==> t <= 0
    ensures after == before ==> t == 0
  {
    if before > 0 then Arith.RoundHalfAway(1000 * (after - before), before)
    else Arith.RoundHalfAway(1000 * (before - after), -before)
  }

  /** The rounded change is the nearest tenth: no other tenth of a percent is
      closer to the exact change 1000 * (after - before) / before. */
  lemma ChangeTenthsNearest(before: int, after: int, u: int)
    requires before != 0
    ensures 2 * Arith.Abs(1000 * (after - before) - ChangeTenths(before, after) * before) <= Arith.Abs(before)
    ensures Arith.Abs(1000 * (after - before) - ChangeTenths(before, after) * before) <= Arith.Abs(1000 * (after - before) - u * before)
  {
    var t := ChangeTenths(before, after);
    var num := 1000 * (after - before);
    if before > 0 {
      NearestMultiple(num, before, t, u);
    } else {
      var d := -before;
      Arith.MulNeg(t, d);
      Arith.MulNeg(u, d);
      NearestMultiple(-num, d, t, u);
    }
  }

  /** A multiple of d within half of d from x is the closest multiple of d to x. */
  lemma NearestMultiple(x: int, d: int, t: int, u: int)
    requires d > 0 && -d <= 2 * (x - t * d) <= d
    ensures 2 * Arith.Abs(x - t * d) <= d
    ensures Arith.Abs(x - t * d) <= Arith.Abs(x - u * d)
  {
    var e := x - t * d;
    var k := u - t;
    assert x - u * d == e - k * d;
    if k > 0 {
      Arith.MulMono(k, 1, d);
    } else if k < 0 {
      Arith.MulMono(-k, 1, d);
      assert (-k) * d == -(k * d);
    }
  }

  function KindOf(tenths: int): ChangeType {
    if tenths > 0 then Positive else if tenths < 0 then Negative else Neutral
  }

  /** PHP's string of a non-negative float with at most one decimal: "12",
      "12.5" (no trailing ".0"). */
  function UnsignedTenths(n: nat): (s: string)
    ensures |s| >= 1 && IsDigit(s[0])
  {
    if n % 10 == 0 then NatToString(n / 10)
    else NatToString(n / 10) + "." + [Digit(n % 10)]
  }

  /** The change text for a rounded change that is not negative zero: a '+'
      for zero and above, the value, then '%'. */
  function ChangeText(tenths: int): string {
    (if tenths >= 0 then "+" else "-") + UnsignedTenths(Arith.Abs(tenths)) + "%"
  }

  /** Reads "12" or "12.5" back as tenths. Only the shortest form is read: no
      leading zero and no ".0", so "05" and "5.0" are refused. */
  function ReadUnsigned(u: string): Option<nat> {
    if |u| >= 3 && u[|u| - 2] == '.' && Canonical(u[..|u| - 2]) && IsDigit(u[|u| - 1]) && u[|u| - 1] != '0' then
      Some(10 * ParseDigits(u[..|u| - 2]) + DigitValue(u[|u| - 1]))
    else if Canonical(u) then Some(10 * ParseDigits(u))
    else None
  }

  /** Reads a change text back as tenths of a percent: "+12.5%", "-3%", and
      the unsigned "0%" of a change from nothing. A '-' needs a value above
      zero, and no other unsigned text is read. */
  function ReadChange(s: string): Option<int> {
    if |s| < 2 || s[|s| - 1] != '%' then None
    else
      var body := s[..|s| - 1];
      if body[0] == '+' then ReadUnsigned(body[1..])
      else if body[0] == '-' then
        var n := ReadUnsigned(body[1..]);
        if n.Some? && n.value > 0 then Some(-(n.value as int)) else None
      else if body == "0" then Some(0)
      else None
  }

  /** The printed value reads back, and it is in its shortest form: a leading
      zero only before the point, and a decimal only when it is not zero. */
  lemma UnsignedRoundTrip(n: nat)
    ensures ReadUnsigned(UnsignedTenths(n)) == Some(n)
    ensures var u := UnsignedTenths(n); u[0] == '0' ==> n < 10
    ensures var u := UnsignedTenths(n); '.' in u <==> n % 10 != 0
    ensures var u := UnsignedTenths(n); forall i :: 0 <= i < |u| - 1 && u[i] == '.' ==> u[i + 1] != '0'
  {
    var u := UnsignedTenths(n);
    var d := NatToString(n / 10);
    if n % 10 == 0 {
      assert u == d;
      if |u| >= 3 {
        assert IsDigit(u[|u| - 2]);
      }
      assert '.' !in u by {
        forall i | 0 <= i < |u| ensures u[i] != '.' {
          assert IsDigit(d[i]);
        }
      }
    } else {
      assert u[..|u| - 2] == d;
      assert u[|u| - 2] == '.';
      assert u[|u| - 1] == Digit(n % 10);
      DigitValueOfDigit(n % 10);
      assert forall i :: 0 <= i < |d| ==> u[i] == d[i] && IsDigit(d[i]);
    }
  }

  /** Conversely, every text `ReadUnsigned` accepts is the printed form of the
      value it reads. */
  lemma UnsignedCanonical(u: string)
    requires ReadUnsigned(u).Some?
    ensures UnsignedTenths(ReadUnsigned(u).value) == u
  {
    var n := ReadUnsigned(u).value;
    if |u| >= 3 && u[|u| - 2] == '.' && Canonical(u[..|u| - 2]) && IsDigit(u[|u| - 1]) && u[|u| - 1] != '0' {
      var d := u[..|u| - 2];
      var c := u[|u| - 1];
      CanonicalRoundTrip(d);
      assert n / 10 == ParseDigits(d) && n % 10 == DigitValue(c);
      DigitValueOfDigit(DigitValue(c));
      assert Digit(n % 10) == c;
      assert u == d + "." + [c];
    } else {
      CanonicalRoundTrip(u);
      assert n / 10 == ParseDigits(u) && n % 10 == 0;
    }
  }

  /** The text a change is printed as reads back as the same change. */
  lemma ChangeTextRoundTrip(tenths: int)
    ensures ReadChange(ChangeText(tenths)) == Some(tenths)
  {
    var u := UnsignedTenths(Arith.Abs(tenths));
    var s := ChangeText(tenths);
    var sign := if tenths >= 0 then "+" else "-";
    assert s == sign + u + "%";
    assert s[..|s| - 1] == sign + u;
    assert (sign + u)[1..] == u;
    UnsignedRoundTrip(Arith.Abs(tenths));
  }

  /** Conversely, every text `ReadChange` accepts is the printed form of the
      change it reads, or the "0%" of a change from nothing. */
  lemma ChangeTextCanonical(s: string)
    requires ReadChange(s).Some?
    ensures s == ChangeText(ReadChange(s).value) || s == "0%"
  {
    var body := s[..|s| - 1];
    assert s == body + "%";
    if body[0] == '+' || body[0] == '-' {
      UnsignedCanonical(body[1..]);
      assert body == [body[0]] + body[1..];
    }
  }

  /** `calculatePercentageChange($old, $new)`. From no previous value the change
      is "+100%" if the after value is positive and "0%" otherwise. */
  function PercentageChange(before: int, after: int): (c: Change)
    ensures before == 0 && after > 0 ==> c == Change("+100%", Positive)
    ensures before == 0 && after <= 0 ==> c == Change("0%", Neutral)
    ensures before != 0 ==> ReadChange(c.text) == Some(ChangeTenths(before, after))
    ensures before != 0 ==> |c.text| >= 3 && (c.text[0] == '+' <==> ChangeTenths(before, after) >= 0)
    ensures before != 0 ==> (c.text[0] == '-' <==> ChangeTenths(before, after) < 0)
    ensures ReadChange(c.text).Some? && c.kind == KindOf(ReadChange(c.text).value)
  {
    if before == 0 then
      if after > 0 then
        ReadHundred();
        Change("+100%", Positive)
      else
        ReadZero();
        Change("0%", Neutral)
    else
      var t := ChangeTenths(before, after);
      ChangeTextRoundTrip(t);
      Change(ChangeText(t), KindOf(t))
  }

  lemma ReadHundred()
    ensures ReadChange("+100%") == Some(1000)
  {
    assert NatToString(100) == "100";
    assert ChangeText(1000) == "+100%";
    ChangeTextRoundTrip(1000);
  }

  lemma ReadZero()
    ensures ReadChange("0%") == Some(0)
  {
    assert "0%"[..1] == "0";
    assert "0"[..0] == "";
    assert ParseDigits("0") == 0;
  }

  /** A previous value of zero: any gain reads as +100%, whatever its size. */
  lemma FromZero(after: int)
    ensures PercentageChange(0, after).kind == (if after > 0 then Positive else Neutral)
    ensures after > 0 ==> ReadChange(PercentageChange(0, after).text) == Some(1000)
  {
    ReadHundred();
  }

  /** A non-negative count falls by at most 100%. */
  lemma ChangeAtLeastMinusHundred(before: int, after: int)
    requires before > 0 && after >= 0
    ensures ChangeTenths(before, after) >= -1000
  {
    var t := ChangeTenths(before, after);
    if t < -1000 {
      Arith.MulMono(-1000 - t, 1, before);
      assert false;
    }
  }

  lemma ChangeExamples()
    ensures ChangeTenths(10, 15) == 500 && ChangeTenths(3, 4) == 333 && ChangeTenths(3, 2) == -333
    ensures ChangeTenths(8, 8) == 0 && ChangeTenths(20, 10) == -500 && ChangeTenths(4, 5) == 250
  {
  }

  // --- the printed change, as written ---------------------------------------

  /** Whether the exact change is negative: after - before and before of opposite signs. */
  predicate Falling(before: int, after: int) {
    (after - before) * before < 0
  }

  /** The text as the controller builds it. A fall smaller than 0.05% rounds to
      the float -0.0, which passes `>= 0` (so gets a '+') and prints as "-0". */
  function ChangeTextAsWritten(before: int, after: int): string
    requires before != 0
  {
    var t := ChangeTenths(before, after);
    if t == 0 && Falling(before, after) then "+" + "-0" + "%" else ChangeText(t)
  }

  /** 3000 to 2999 is a fall of 0.033%: the text comes out as "+-0%", which
      reads as no change at all. */
  lemma NegativeZeroText()
    ensures ChangeTenths(3000, 2999) == 0 && Falling(3000, 2999)
    ensures ChangeTextAsWritten(3000, 2999) == "+-0%"
    ensures ReadChange(ChangeTextAsWritten(3000, 2999)).None?
  {
    var s := "+-0%";
    assert s[..3] == "+-0" && s[..3][1..] == "-0";
    assert !IsDigit("-0"[0]);
  }

  // --- the dashboard ----------------------------------------------------------

  /** The bounds `dashboard` derives from the clock: the start and the last
      second of this month and of the previous one. */
  datatype Months = Months(startOfMonth: int, endOfMonth: int, startOfLastMonth: int, endOfLastMonth: int)

  /** What the calendar guarantees of the four bounds. */
  predicate Ordered(m: Months) {
    m.startOfLastMonth <= m.endOfLastMonth < m.startOfMonth <= m.endOfMonth
  }

  /** `appointmentDate >= :start AND appointmentDate <= :end` (a NULL date matches nothing). */
  function DatedWithin(lo: int, hi: int): AppointmentEntity.Appointment -> bool {
    (a: AppointmentEntity.Appointment) => a.date.Some? && lo <= a.date.value <= hi
  }

  /** `status = :status AND createdAt <= :end` on clients. */
  function ClientSince(status: string, end: int): ClientEntity.Client -> bool {
    (c: ClientEntity.Client) => c.status == status && c.createdAt <= end
  }

  /** `status = :status AND createdAt <= :end` on quotes. */
  function QuoteSince(status: string, end: int): QuoteEntity.Quote -> bool {
    (q: QuoteEntity.Quote) => q.status == status && q.createdAt <= end
  }

  /** `createdAt >= :start [AND createdAt <= :end] AND status = 'signed'`. */
  function SignedWithin(lo: int, hi: Option<int>): QuoteEntity.Quote -> bool {
    (q: QuoteEntity.Quote) => q.status == "signed" && lo <= q.createdAt && (hi.Some? ==> q.createdAt <= hi.value)
  }

  /** SQL `SUM(amount)`: NULL amounts are skipped, and the sum of no amounts is NULL. */
  function SumAmounts(t: seq<Row<QuoteEntity.Quote>>): (r: Option<int>)
    ensures r.None? <==> forall i :: 0 <= i < |t| ==> t[i].val.amount.None?
    ensures |t| == 1 ==> r == t[0].val.amount
  {
    if |t| == 0 then None
    else
      var rest := SumAmounts(t[1..]);
      match t[0].val.amount
      case None =>
        assert forall i :: 1 <= i < |t| ==> t[i] == t[1..][i - 1];
        rest
      case Some(a) => Some(a + rest.GetOr(0))
  }

  /** Two partial sums combined: NULL is the identity. */
  function Combine(x: Option<int>, y: Option<int>): Option<int> {
    if x.None? then y else if y.None? then x else Some(x.value + y.value)
  }

  /** The sum over two stretches of rows is the combination of their sums, so
      with the single-row case it fixes `SumAmounts` on every table: the sum of
      the amounts present, NULL when there are none, in any order. */
  lemma {:induction false} SumAmountsAppend(a: seq<Row<QuoteEntity.Quote>>, b: seq<Row<QuoteEntity.Quote>>)
    ensures SumAmounts(a + b) == Combine(SumAmounts(a), SumAmounts(b))
  {
    if |a| == 0 {
      assert a + b == b;
    } else {
      assert (a + b)[1..] == a[1..] + b;
      assert (a + b)[0] == a[0];
      SumAmountsAppend(a[1..], b);
    }
  }

  /** The order of the rows does not change the sum. */
  lemma SumAmountsSwap(a: seq<Row<QuoteEntity.Quote>>, b: seq<Row<QuoteEntity.Quote>>)
    ensures SumAmounts(a + b) == SumAmounts(b + a)
  {
    SumAmountsAppend(a, b);
    SumAmountsAppend(b, a);
  }

  /** `SUM(amount) ... ?: 0`, in hundredths. */
  function Revenue(t: seq<Row<QuoteEntity.Quote>>, within: QuoteEntity.Quote -> bool): int {
    SumAmounts(Keep(t, within)).GetOr(0)
  }

  /** A sum of positive amounts is positive, and the revenue of no sale is 0. */
  lemma {:induction false} SumOfPositives(t: seq<Row<QuoteEntity.Quote>>)
    requires forall i :: 0 <= i < |t| ==> t[i].val.amount.None? || t[i].val.amount.value > 0
    ensures SumAmounts(t).GetOr(0) >= 0
    ensures SumAmounts(t).Some? ==> SumAmounts(t).value > 0
  {
    if |t| > 0 {
      assert forall i :: 1 <= i < |t| ==> t[i] == t[1..][i - 1];
      SumOfPositives(t[1..]);
    }
  }

  /** `number_format((float) $revenue, 0, ',', ' ') . '€'` of an amount in hundredths. */
  function FormatRevenue(cents: int): string {
    NumberFormat(Arith.RoundHalfAway(cents, 100)) + "€"
  }

  /** The formatted revenue is the whole number of euros nearest the amount,
      in space-separated groups of three digits, followed by the euro sign. */
  lemma FormatRevenueReadsBack(cents: int)
    requires cents >= 0
    ensures var s := FormatRevenue(cents);
            && |s| >= 2 && s[|s| - 1] == '€'
            && DigitsAndSpaces(s[..|s| - 1]) && SeparatorsEveryFourth(s[..|s| - 1])
            && 2 * Arith.Abs(cents - 100 * ParseGrouped(s[..|s| - 1])) <= 100
  {
    var s := FormatRevenue(cents);
    assert s[..|s| - 1] == Grouped(Arith.RoundHalfAway(cents, 100));
  }

  /** A change whose text reads back and whose kind is the sign of what it reads. */
  predicate ReadsBack(c: Change) {
    ReadChange(c.text).Some? && c.kind == KindOf(ReadChange(c.text).value)
  }

  datatype Tile = Tile(value: int, change: Change)
  datatype RevenueTile = RevenueTile(value: string, change: Change)

  datatype Dashboard = Dashboard(
    appointmentsThisMonth: Tile,
    activeClients: Tile,
    quotesInProgress: Tile,
    revenue: RevenueTile)

  /** What a change from figure `last` to figure `now` shows: from 0, "+100%"
      for a rise and "0%" otherwise; from any other figure, a text that reads
      back as the rounded change, with the kind its sign gives. */
  predicate ChangeFrom(c: Change, last: int, now: int) {
    && (last == 0 ==> c == (if now > 0 then Change("+100%", Positive) else Change("0%", Neutral)))
    && (last != 0 ==> ReadChange(c.text) == Some(ChangeTenths(last, now)))
    && ReadsBack(c)
  }

  /** The text of a revenue tile: euro digits in groups of three, the euro
      sign, and within half a euro of `cents` when `cents` is not negative. */
  predicate ShowsRevenue(text: string, cents: int) {
    && |text| >= 2 && text[|text| - 1] == '€'
    && (cents >= 0 ==>
          && DigitsAndSpaces(text[..|text| - 1]) && SeparatorsEveryFourth(text[..|text| - 1])
          && 2 * Arith.Abs(cents - 100 * ParseGrouped(text[..|text| - 1])) <= 100)
  }

  /** A count tile: the figure and its change on last month's figure. */
  function TileOf(last: int, now: int): (t: Tile)
    ensures t.value == now && ChangeFrom(t.change, last, now)
  {
    Tile(now, PercentageChange(last, now))
  }

  /** The revenue tile: `number_format` of this month's sum and its change on
      last month's sum. */
  function RevenueTileOf(last: int, cents: int): (t: RevenueTile)
    ensures ShowsRevenue(t.value, cents) && ChangeFrom(t.change, last, cents)
  {
    var text := FormatRevenue(cents);
    var n := NumberFormat(Arith.RoundHalfAway(cents, 100));
    assert text == n + "€" && |n| >= 1;
    assert text[..|text| - 1] == n;
    if cents >= 0 then
      FormatRevenueReadsBack(cents);
      RevenueTile(text, PercentageChange(last, cents))
    else
      RevenueTile(text, PercentageChange(last, cents))
  }

  /** `dashboard`: four counts or sums, each with its change on the month
      before. The appointments tile counts the appointments dated within this
      month and compares with those dated within last month; "last month" for
      clients and quotes counts those created by the end of last month that
      have the status now; the revenue is the sum of the signed quotes created
      since the start of this month, with no upper bound, compared with those
      created within last month. */
  function DashboardOf(s: Store.Store, m: Months): (d: Dashboard)
    ensures d.appointmentsThisMonth.value == |Keep(s.appointments, DatedWithin(m.startOfMonth, m.endOfMonth))|
    ensures ChangeFrom(d.appointmentsThisMonth.change,
                       |Keep(s.appointments, DatedWithin(m.startOfLastMonth, m.endOfLastMonth))|,
                       d.appointmentsThisMonth.value)
    ensures d.activeClients.value == |StatusQuery.Selected(s.clients, Some("active"), ClientRepository.StatusOf)|
    ensures ChangeFrom(d.activeClients.change, |Keep(s.clients, ClientSince("active", m.endOfLastMonth))|,
                       d.activeClients.value)
    ensures d.quotesInProgress.value == |StatusQuery.Selected(s.quotes, Some("sent"), QuoteRepository.StatusOf)|
    ensures ChangeFrom(d.quotesInProgress.change, |Keep(s.quotes, QuoteSince("sent", m.endOfLastMonth))|,
                       d.quotesInProgress.value)
    ensures ShowsRevenue(d.revenue.value, Revenue(s.quotes, SignedWithin(m.startOfMonth, None)))
    ensures ChangeFrom(d.revenue.change, Revenue(s.quotes, SignedWithin(m.startOfLastMonth, Some(m.endOfLastMonth))),
                       Revenue(s.quotes, SignedWithin(m.startOfMonth, None)))
    ensures d.appointmentsThisMonth.value <= |s.appointments|
    ensures |Keep(s.clients, ClientSince("active", m.endOfLastMonth))| <= d.activeClients.value <= |s.clients|
    ensures |Keep(s.quotes, QuoteSince("sent", m.endOfLastMonth))| <= d.quotesInProgress.value <= |s.quotes|
  {
    var clientsActive := ClientRepository.CountByStatus(s.clients, Some("active"));
    var quotesInProgress := QuoteRepository.CountByStatus(s.quotes, Some("sent"));
    var appointmentsThisMonth := |Keep(s.appointments, DatedWithin(m.startOfMonth, m.endOfMonth))|;
    var appointmentsLastMonth := |Keep(s.appointments, DatedWithin(m.startOfLastMonth, m.endOfLastMonth))|;
    var clientsLastMonth := |Keep(s.clients, ClientSince("active", m.endOfLastMonth))|;
    var quotesLastMonth := |Keep(s.quotes, QuoteSince("sent", m.endOfLastMonth))|;
    var revenue := Revenue(s.quotes, SignedWithin(m.startOfMonth, None));
    var revenueLastMonth := Revenue(s.quotes, SignedWithin(m.startOfLastMonth, Some(m.endOfLastMonth)));
    StatusNeverFalls(s.clients, "active", ClientRepository.StatusOf, ClientSince("active", m.endOfLastMonth));
    StatusNeverFalls(s.quotes, "sent", QuoteRepository.StatusOf, QuoteSince("sent", m.endOfLastMonth));
    KeepShorter(s.appointments, DatedWithin(m.startOfMonth, m.endOfMonth));
    KeepShorter(s.clients, StatusQuery.ValueTest(Some("active"), ClientRepository.StatusOf));
    KeepShorter(s.quotes, StatusQuery.ValueTest(Some("sent"), QuoteRepository.StatusOf));
    Dashboard(
      TileOf(appointmentsLastMonth, appointmentsThisMonth),
      TileOf(clientsLastMonth, clientsActive),
      TileOf(quotesLastMonth, quotesInProgress),
      RevenueTileOf(revenueLastMonth, revenue))
  }

  /** The revenue windows: a signed quote created at or after the start of
      this month counts towards this month's revenue however late it was
      created, and never towards last month's; one created within last month
      counts towards last month's only. */
  lemma RevenueWindows(m: Months, q: QuoteEntity.Quote)
    requires Ordered(m) && q.status == "signed"
    ensures q.createdAt >= m.startOfMonth ==>
              SignedWithin(m.startOfMonth, None)(q) && !SignedWithin(m.startOfLastMonth, Some(m.endOfLastMonth))(q)
    ensures m.startOfLastMonth <= q.createdAt <= m.endOfLastMonth ==>
              SignedWithin(m.startOfLastMonth, Some(m.endOfLastMonth))(q) && !SignedWithin(m.startOfMonth, None)(q)
    ensures q.createdAt < m.startOfLastMonth ==>
              !SignedWithin(m.startOfMonth, None)(q) && !SignedWithin(m.startOfLastMonth, Some(m.endOfLastMonth))(q)
  {
  }

  /** The "last month" figure for a status never exceeds the current one. */
  lemma StatusNeverFalls<T(!new)>(t: seq<Row<T>>, status: string, statusOf: T -> string, since: T -> bool)
    requires forall v :: since(v) ==> statusOf(v) == status
    ensures |Keep(t, since)| <= |StatusQuery.Selected(t, Some(status), statusOf)|
  {
    KeepMono(t, since, StatusQuery.ValueTest(Some(status), statusOf));
  }

  /** Growth from a smaller count never reads as negative. */
  lemma NoFallNoNegative(before: nat, after: nat)
    requires before <= after
    ensures PercentageChange(before, after).kind != Negative
  {
    if before != 0 {
      ChangeTextRoundTrip(ChangeTenths(before, after));
    }
  }

  /** Because last month's figures count the clients and quotes that have the
      status now, the active-clients and quotes-in-progress tiles can never
      show a fall. */
  lemma ClientsAndQuotesNeverFall(s: Store.Store, m: Months)
    ensures DashboardOf(s, m).activeClients.change.kind != Negative
    ensures DashboardOf(s, m).quotesInProgress.change.kind != Negative
  {
    StatusNeverFalls(s.clients, "active", ClientRepository.StatusOf, ClientSince("active", m.endOfLastMonth));
    StatusNeverFalls(s.quotes, "sent", QuoteRepository.StatusOf, QuoteSince("sent", m.endOfLastMonth));
    NoFallNoNegative(|Keep(s.clients, ClientSince("active", m.endOfLastMonth))|, DashboardOf(s, m).activeClients.value);
    NoFallNoNegative(|Keep(s.quotes, QuoteSince("sent", m.endOfLastMonth))|, DashboardOf(s, m).quotesInProgress.value);
  }

  /** The two appointment windows do not overlap: no appointment is counted in
      both months, so the two counts together never exceed the table. */
  lemma AppointmentWindowsDisjoint(s: Store.Store, m: Months)
    requires Ordered(m)
    ensures DashboardOf(s, m).appointmentsThisMonth.value
            + |Keep(s.appointments, DatedWithin(m.startOfLastMonth, m.endOfLastMonth))| <= |s.appointments|
  {
    KeepDisjoint(s.appointments, DatedWithin(m.startOfMonth, m.endOfMonth), DatedWithin(m.startOfLastMonth, m.endOfLastMonth));
  }

  /** With every amount positive, the revenue is never negative and prints
      with no minus sign. */
  lemma RevenueNotNegative(s: Store.Store, m: Months)
    requires forall x :: x in s.quotes ==> x.val.amount.None? || x.val.amount.value > 0
    ensures Revenue(s.quotes, SignedWithin(m.startOfMonth, None)) >= 0
    ensures DashboardOf(s, m).revenue.value[0] != '-'
  {
    var kept := Keep(s.quotes, SignedWithin(m.startOfMonth, None));
    assert forall i :: 0 <= i < |kept| ==> kept[i] in s.quotes;
    SumOfPositives(kept);
    var e := Arith.RoundHalfAway(Revenue(s.quotes, SignedWithin(m.startOfMonth, None)), 100);
    assert DashboardOf(s, m).revenue.value == Grouped(e) + "€";
  }

  // --- performance ----------------------------------------------------------

  /** The figures the source fixes in place of real visit and quote counts. */
  const TotalVisits: int := 25
  const CompletedVisits: int := 18
  const TotalQuotes: int := 8
  const CommissionPerQuote: int := 570

  /** `{current, total, percentage}`, the percentage in tenths. */
  datatype Progress = Progress(current: int, total: int, percentage: int)

  datatype Performance = Performance(
    visitsCompleted: Progress,
    quotesSigned: Progress,
    conversionRate: int,
    estimatedCommission: int)

  /** `performance`: only the number of signed quotes comes from the
      database; 72% of visits completed is fixed, and every signed quote adds
      12.5 points of conversion (out of a fixed 8 quotes) and 570 of commission. */
  function PerformanceOf(s: Store.Store): (p: Performance)
    ensures p.quotesSigned.current == |StatusQuery.Selected(s.quotes, Some("signed"), QuoteRepository.StatusOf)|
    ensures p.quotesSigned.total == 8 && p.conversionRate == 125 * p.quotesSigned.current
    ensures p.quotesSigned.percentage == p.conversionRate
    ensures p.visitsCompleted == Progress(18, 25, 720)
    ensures p.estimatedCommission == 570 * p.quotesSigned.current
  {
    var signed := QuoteRepository.CountByStatus(s.quotes, Some("signed"));
    var rate := if TotalQuotes > 0 then Arith.RoundHalfAway(signed * 1000, TotalQuotes) else 0;
    Arith.RoundHalfAwayUnique(signed * 1000, TotalQuotes, 125 * signed);
    Arith.RoundHalfAwayUnique(CompletedVisits * 1000, TotalVisits, 720);
    Performance(
      Progress(CompletedVisits, TotalVisits, Arith.RoundHalfAway(CompletedVisits * 1000, TotalVisits)),
      Progress(signed, TotalQuotes, Arith.RoundHalfAway(signed * 1000, TotalQuotes)),
      rate,
      signed * CommissionPerQuote)
  }

  /** Signing a quote that was not signed adds one signed quote: 12.5 points of
      conversion and 570 of commission. */
  lemma SignRaisesPerformance(s: Store.Store, id: nat, now: int)
    requires Store.Good(s) && id in Ids(s.quotes) && Find(s.quotes, id).value.status != "signed"
    ensures PerformanceOf(QuoteController.Sign(s, id, now).store).conversionRate == PerformanceOf(s).conversionRate + 125
    ensures PerformanceOf(QuoteController.Sign(s, id, now).store).estimatedCommission
            == PerformanceOf(s).estimatedCommission + 570
  {
    var q := Find(s.quotes, id).value;
    var signed := QuoteEntity.SetSignedAt(q.(status := "signed"), Some(now));
    var after := QuoteController.Sign(s, id, now).store;
    assert after.quotes == Table.Update(s.quotes, id, signed);
    SignedCountUp(s.quotes, id, signed);
  }

  lemma SignedCountUp(t: seq<Row<QuoteEntity.Quote>>, id: nat, signed: QuoteEntity.Quote)
    requires UniqueIds(t) && id in Ids(t) && Find(t, id).value.status != "signed" && signed.status == "signed"
    ensures |StatusQuery.Selected(Table.Update(t, id, signed), Some("signed"), QuoteRepository.StatusOf)|
            == |StatusQuery.Selected(t, Some("signed"), QuoteRepository.StatusOf)| + 1
  {
    var test := StatusQuery.ValueTest(Some("signed"), QuoteRepository.StatusOf);
    assert !test(Find(t, id).value) && test(signed);
    KeepUpdate(t, id, signed, test);
  }
}

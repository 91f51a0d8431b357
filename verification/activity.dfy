/** The Activity entity: an entry of the dashboard's activity feed, and the
    French "time ago" label the feed shows for it. */
module ActivityEntity {

  import opened Wrappers
  import opened Validation
  import opened Text
  import Arith

  const Types: seq<string> := ["rdv", "devis", "client", "study", "other"]
  const Statuses: seq<string> := ["completed", "pending", "new", "cancelled"]
  const DefaultStatus: string := "new"

  /** `type` and `title` stay null until a setter runs; `user` and `client` are
      optional row ids. */
  datatype Activity = Activity(
    activityType: Option<string>,
    title: Option<string>,
    description: Option<string>,
    status: string,
    createdAt: int,
    user: Option<nat>,
    client: Option<nat>)

  /** The constructor stamps the creation time; everything else is a default. */
  function New(now: int): (a: Activity)
    ensures a.createdAt == now && a.status == DefaultStatus
    ensures a.activityType.None? && a.title.None? && a.user.None? && a.client.None?
  {
    Activity(None, None, None, DefaultStatus, now, None, None)
  }

  predicate Valid(a: Activity) {
    && a.activityType.Some? && a.activityType.value in Types
    && a.title.Some? && a.title.value != "" && |a.title.value| <= 255
    && a.status in Statuses
  }

  function Violations(a: Activity): (vs: seq<Violation>)
    ensures |vs| == 0 <==> Valid(a)
    ensures Fields(vs) <= {"type", "title", "status"}
    ensures a.title == Some("") ==> Violation("title", Blank) in vs
    ensures a.activityType == Some("") ==> Violation("type", Blank) in vs && Violation("type", NotAChoice) in vs
    ensures a.status !in Statuses ==> Violation("status", NotAChoice) in vs
  {
    var vs :=
      NotBlankOpt("type", a.activityType) + ChoiceOpt("type", a.activityType, Types)
      + NotBlankOpt("title", a.title) + LengthOpt("title", a.title, 0, 255)
      + Choice("status", a.status, Statuses);
    FieldsWithin(vs, {"type", "title", "status"});
    vs
  }

  // --- getRelativeTime ------------------------------------------------------

  const Minute: int := 60
  const Hour: int := 3600
  const Day: int := 86400

  /** What a label says: a number of minutes, hours or days, or "yesterday". */
  datatype Elapsed = Minutes(n: int) | Hours(n: int) | Yesterday | Days(n: int)

  /** The reading of the label that is right for `diff` seconds: the window the
      elapsed time falls in, and the whole number of units it spans. */
  predicate Describes(e: Elapsed, diff: int) {
    match e
    case Minutes(m) => diff < Hour && m * Minute <= diff < (m + 1) * Minute
    case Hours(h) => Hour <= diff < Day && h * Hour <= diff < (h + 1) * Hour
    case Yesterday => Day <= diff < 2 * Day
    case Days(d) => 2 * Day <= diff && d * Day <= diff < (d + 1) * Day
  }

  /** "Il y a N <unit>", with an 's' when N is more than one. */
  function Counted(n: int, unit: string): string {
    "Il y a " + IntToString(n) + " " + unit + (if n > 1 then "s" else "")
  }

  function Label(e: Elapsed): string {
    match e
    case Minutes(n) => Counted(n, "minute")
    case Hours(n) => Counted(n, "heure")
    case Yesterday => "Hier"
    case Days(n) => Counted(n, "jour")
  }

  /** `getRelativeTime`, with `diff` = now - createdAt in seconds (negative when
      the creation time lies in the future); PHP `floor` is Dafny's `/` here. */
  function RelativeTime(diff: int): (r: string)
    ensures ReadLabel(r).Some? && Describes(ReadLabel(r).value, diff)
    ensures r == Label(ReadLabel(r).value)
  {
    var e :=
      if diff < Hour then Minutes(diff / Minute)
      else if diff < Day then Hours(diff / Hour)
      else if diff < 2 * Day then Yesterday
      else Days(diff / Day);
    ReadLabelOfLabel(e);
    Label(e)
  }

  /** At most one reading is right for a given elapsed time. */
  lemma DescribesUnique(e1: Elapsed, e2: Elapsed, diff: int)
    requires Describes(e1, diff) && Describes(e2, diff)
    ensures e1 == e2
  {
    match e1
    case Minutes(a) =>
      var b := e2.n;
      if a < b { Arith.MulMono(b, a + 1, Minute); }
      if b < a { Arith.MulMono(a, b + 1, Minute); }
    case Hours(a) =>
      var b := e2.n;
      if a < b { Arith.MulMono(b, a + 1, Hour); }
      if b < a { Arith.MulMono(a, b + 1, Hour); }
    case Yesterday =>
    case Days(a) =>
      var b := e2.n;
      if a < b { Arith.MulMono(b, a + 1, Day); }
      if b < a { Arith.MulMono(a, b + 1, Day); }
  }

  /** The hour count lies in [1, 23], the day count is at least 2, so a label
      never reads "Il y a 1 jour". */
  lemma LabelRanges(diff: int)
    ensures ReadLabel(RelativeTime(diff)).value.Hours? ==> 1 <= ReadLabel(RelativeTime(diff)).value.n <= 23
    ensures ReadLabel(RelativeTime(diff)).value.Days? ==> ReadLabel(RelativeTime(diff)).value.n >= 2
    ensures RelativeTime(diff) != Counted(1, "jour")
  {
    var e := ReadLabel(RelativeTime(diff)).value;
    match e
    case Hours(h) =>
      FloorAtLeast(h, Hour, diff, 1);
      FloorBelow(h, Hour, diff, 24);
    case Days(d) =>
      FloorAtLeast(d, Day, diff, 2);
    case _ =>
    ReadLabelOfLabel(Days(1));
  }

  /** A whole count q of units c whose span holds x lies at or above lo when x does. */
  lemma FloorAtLeast(q: int, c: int, x: int, lo: int)
    requires c > 0 && x < (q + 1) * c && lo * c <= x
    ensures q >= lo
  {
    if q < lo {
      Arith.MulMono(lo, q + 1, c);
      assert false;
    }
  }

  /** A whole count q of units c whose span starts at or below x lies below hi when x does. */
  lemma FloorBelow(q: int, c: int, x: int, hi: int)
    requires c > 0 && q * c <= x && x < hi * c
    ensures q < hi
  {
    if q >= hi {
      Arith.MulMono(q, hi, c);
      assert false;
    }
  }

  /** The boundary cases of the three thresholds, negative differences included. */
  lemma Boundaries()
    ensures RelativeTime(-1) == "Il y a -1 minute"
    ensures RelativeTime(59) == "Il y a 0 minute"
    ensures RelativeTime(119) == "Il y a 1 minute"
    ensures RelativeTime(3599) == "Il y a 59 minutes"
    ensures RelativeTime(3600) == "Il y a 1 heure"
    ensures RelativeTime(86399) == "Il y a 23 heures"
    ensures RelativeTime(86400) == "Hier"
    ensures RelativeTime(172799) == "Hier"
    ensures RelativeTime(172800) == "Il y a 2 jours"
  {
    BoundaryReadings();
    BoundaryTexts();
  }

  lemma BoundaryReadings()
    ensures RelativeTime(-1) == Label(Minutes(-1))
    ensures RelativeTime(59) == Label(Minutes(0))
    ensures RelativeTime(119) == Label(Minutes(1))
    ensures RelativeTime(3599) == Label(Minutes(59))
    ensures RelativeTime(3600) == Label(Hours(1))
    ensures RelativeTime(86399) == Label(Hours(23))
    ensures RelativeTime(86400) == Label(Yesterday)
    ensures RelativeTime(172799) == Label(Yesterday)
    ensures RelativeTime(172800) == Label(Days(2))
  {
  }

  lemma BoundaryTexts()
    ensures Label(Minutes(-1)) == "Il y a -1 minute"
    ensures Label(Minutes(0)) == "Il y a 0 minute"
    ensures Label(Minutes(1)) == "Il y a 1 minute"
    ensures Label(Minutes(59)) == "Il y a 59 minutes"
    ensures Label(Hours(1)) == "Il y a 1 heure"
    ensures Label(Hours(23)) == "Il y a 23 heures"
    ensures Label(Yesterday) == "Hier"
    ensures Label(Days(2)) == "Il y a 2 jours"
  {
    SmallNumbers();
    CountedText(-1, "minute");
    CountedText(0, "minute");
    CountedText(1, "minute");
    CountedText(59, "minute");
    CountedText(1, "heure");
    CountedText(23, "heure");
    CountedText(2, "jour");
  }

  lemma CountedText(n: int, unit: string)
    ensures Counted(n, unit) == "Il y a " + IntToString(n) + " " + unit + (if n > 1 then "s" else "")
  {
  }

  lemma SmallNumbers()
    ensures IntToString(-1) == "-1" && IntToString(0) == "0" && IntToString(1) == "1"
    ensures IntToString(2) == "2" && IntToString(23) == "23" && IntToString(59) == "59"
  {
    assert NatToString(5) == "5";
    assert NatToString(2) == "2";
  }

  // --- reading a label back -------------------------------------------------

  /** The index of the first space, or |s| when there is none. */
  function FirstSpace(s: string): (k: nat)
    ensures k <= |s|
    ensures forall i :: 0 <= i < k ==> s[i] != ' '
    ensures k < |s| ==> s[k] == ' '
  {
    if |s| == 0 then 0
    else if s[0] == ' ' then 0
    else 1 + FirstSpace(s[1..])
  }

  lemma FirstSpaceAfter(a: string, b: string)
    requires forall i :: 0 <= i < |a| ==> a[i] != ' '
    ensures FirstSpace(a + " " + b) == |a|
  {
    var s := a + " " + b;
    assert s[|a|] == ' ';
    assert forall i :: 0 <= i < |a| ==> s[i] == a[i];
  }

  /** Splits "Il y a <number> <word>" into the number and the word. */
  function ReadCounted(s: string): Option<(int, string)> {
    if |s| < 7 || s[..7] != "Il y a " then None
    else
      var rest := s[7..];
      var k := FirstSpace(rest);
      if k == |rest| then None
      else
        match ParseInt(rest[..k])
        case None => None
        case Some(n) => Some((n, rest[k + 1..]))
  }

  lemma ReadCountedOf(n: int, word: string)
    ensures ReadCounted("Il y a " + IntToString(n) + " " + word) == Some((n, word))
  {
    var num := IntToString(n);
    var s := "Il y a " + num + " " + word;
    assert s[..7] == "Il y a ";
    var rest := s[7..];
    assert rest == num + " " + word;
    FirstSpaceAfter(num, word);
    assert rest[..|num|] == num;
    assert rest[|num| + 1..] == word;
    IntToStringRoundTrip(n);
  }

  /** Reads "Hier" or "Il y a N <unit>[s]" back, requiring the plural 's' exactly when N > 1. */
  function ReadLabel(s: string): Option<Elapsed> {
    if s == "Hier" then Some(Yesterday)
    else
      match ReadCounted(s)
      case None => None
      case Some((n, word)) =>
        var plural := if n > 1 then "s" else "";
        if word == "minute" + plural then Some(Minutes(n))
        else if word == "heure" + plural then Some(Hours(n))
        else if word == "jour" + plural then Some(Days(n))
        else None
  }

  /** Every label reads back as what it says. */
  lemma ReadLabelOfLabel(e: Elapsed)
    ensures ReadLabel(Label(e)) == Some(e)
  {
    match e
    case Yesterday =>
    case Minutes(n) =>
      var word := CountedWord(n, "minute");
      assert word[0] == 'm';
    case Hours(n) =>
      var word := CountedWord(n, "heure");
      assert word[0] == 'h';
      assert word != "minute" + (if n > 1 then "s" else "");
    case Days(n) =>
      var word := CountedWord(n, "jour");
      assert word[0] == 'j';
      assert word != "minute" + (if n > 1 then "s" else "");
      assert word != "heure" + (if n > 1 then "s" else "");
  }

  /** A counted label is not "Hier" and splits back into its number and its word. */
  lemma CountedWord(n: int, unit: string) returns (word: string)
    requires |unit| >= 1
    ensures word == unit + (if n > 1 then "s" else "") && word[0] == unit[0]
    ensures Counted(n, unit) != "Hier" && ReadCounted(Counted(n, unit)) == Some((n, word))
  {
    word := unit + (if n > 1 then "s" else "");
    ReadCountedOf(n, word);
    assert Counted(n, unit) == "Il y a " + IntToString(n) + " " + word;
    assert Counted(n, unit)[0] == 'I';
  }
}

/**
 * What the status page shows for a parsed snapshot: the badge and row
 * emphasis of each interface, the "since"/"last check" texts, the traffic
 * counters, and whether the page shows the table at all or only the notice
 * that no status is available.  HTML is replaced by datatypes naming what is
 * shown; the clock is the parameter `now` (whole seconds since the epoch).
 */
module StatusView {
  import opened JsText
  import opened JsNumber
  import opened StatusParse

  // ---------------------------------------------------------------------
  // getStatusBadge and getRowStyle
  // ---------------------------------------------------------------------

  /** The five badges; a degraded badge carries the text of its reason. */
  datatype Badge = DegradedBadge(reason: string) | NotFound | Down | Up | NoConnectivity

  /** The three row emphases: red for a missing device, yellow for a degraded one, none otherwise. */
  datatype RowStyle = NotFoundRow | DegradedRow | Normal

  /** `degraded === 1`: the integer 1, never NaN. */
  predicate IsDegraded(iface: Interface) {
    iface.degraded == Int(1)
  }

  /** `latency > 0` on a parsed number: a positive value or positive infinity; NaN compares false. */
  predicate LatencyPositive(x: JsFloat) {
    match x
    case FloatNaN => false
    case Infinity(negative) => !negative
    case Float(v) => v > 0.0
  }

  /**
   * The text shown for a degraded reason: an empty reason reads "unknown",
   * the two known codes get their labels, and any other reason is shown as
   * it is.  The result is never empty.
   */
  function ReasonText(reason: string): (r: string)
    ensures r != []
    ensures reason == [] ==> r == "unknown"
    ensures reason == "no_gateway" ==> r == "No Gateway"
    ensures reason == "ipv6_detected" ==> r == "IPv6 Detected"
    ensures reason != "no_gateway" && reason != "ipv6_detected" && reason != [] ==> r == reason
  {
    var code := if reason == [] then "unknown" else reason;
    if code == "no_gateway" then "No Gateway"
    else if code == "ipv6_detected" then "IPv6 Detected"
    else code
  }

  /**
   * What the reason lookup yields as written: the table of labels is a
   * plain object, so a reason that names a member every object inherits
   * (`constructor`, `toString`, ...) finds that member, which is truthy,
   * and the badge shows the member instead of the reason.
   */
  datatype ReasonShown = Label(text: string) | InheritedMember(name: string)

  function ReasonTextAsWritten(reason: string): ReasonShown {
    var code := if reason == [] then "unknown" else reason;
    if code == "no_gateway" then Label("No Gateway")
    else if code == "ipv6_detected" then Label("IPv6 Detected")
    else if code in ObjectPrototypeKeys then InheritedMember(code)
    else Label(code)
  }

  /** Away from the inherited member names, the lookup as written shows `ReasonText`. */
  lemma ReasonTextAsWrittenAgrees(reason: string)
    requires reason !in ObjectPrototypeKeys
    ensures ReasonTextAsWritten(reason) == Label(ReasonText(reason))
  {
  }

  /** The reason `toString` is shown as the inherited member, not as the text `toString`. */
  lemma InheritedReasonMisread()
    ensures ReasonTextAsWritten("toString") == InheritedMember("toString")
    ensures ReasonText("toString") == "toString"
  {
  }

  /** The badge of an interface, by first match: degraded, missing, down, reachable, otherwise no connectivity. */
  function StatusBadge(iface: Interface): (b: Badge)
    ensures b.DegradedBadge? ==> b.reason == ReasonText(iface.degradedReason)
  {
    if IsDegraded(iface) then DegradedBadge(ReasonText(iface.degradedReason))
    else if !iface.doesExist then NotFound
    else if !iface.isUp then Down
    else if LatencyPositive(iface.latency) then Up
    else NoConnectivity
  }

  /** The row emphasis: a missing device first, whatever else holds; then degradation. */
  function GetRowStyle(iface: Interface): RowStyle {
    if !iface.doesExist then NotFoundRow
    else if IsDegraded(iface) then DegradedRow
    else Normal
  }

  /** The index of the first true entry of `conds`, or `|conds|` when there is none. */
  function FirstTrue(conds: seq<bool>): (k: nat)
    ensures k <= |conds|
    ensures k < |conds| ==> conds[k]
    ensures forall j :: 0 <= j < k ==> !conds[j]
  {
    if conds == [] then 0
    else if conds[0] then 0
    else 1 + FirstTrue(conds[1..])
  }

  /** The badge tests in priority order; the last one always holds. */
  function BadgeConditions(iface: Interface): seq<bool> {
    [IsDegraded(iface), !iface.doesExist, !iface.isUp, LatencyPositive(iface.latency), true]
  }

  /** The position of a badge in the priority order. */
  function BadgeRank(b: Badge): nat {
    match b
    case DegradedBadge(_) => 0
    case NotFound => 1
    case Down => 2
    case Up => 3
    case NoConnectivity => 4
  }

  /**
   * Exactly one badge is chosen, and it is the first of the five tests in
   * priority order that holds: every test before it fails.
   */
  lemma BadgeIsFirstMatch(iface: Interface)
    ensures BadgeRank(StatusBadge(iface)) == FirstTrue(BadgeConditions(iface))
    ensures forall j :: 0 <= j < BadgeRank(StatusBadge(iface)) ==> !BadgeConditions(iface)[j]
  {
    var c0 := BadgeConditions(iface);
    var c1 := c0[1..];
    var c2 := c1[1..];
    var c3 := c2[1..];
    var c4 := c3[1..];
    assert c4 == [true];
    assert FirstTrue(c3) == if c3[0] then 0 else 1 + FirstTrue(c4);
    assert FirstTrue(c2) == if c2[0] then 0 else 1 + FirstTrue(c3);
    assert FirstTrue(c1) == if c1[0] then 0 else 1 + FirstTrue(c2);
    assert FirstTrue(c0) == if c0[0] then 0 else 1 + FirstTrue(c1);
  }

  /** The row tests in priority order; the last one always holds. */
  function RowConditions(iface: Interface): seq<bool> {
    [!iface.doesExist, IsDegraded(iface), true]
  }

  /** The position of a row style in the priority order. */
  function RowRank(s: RowStyle): nat {
    match s
    case NotFoundRow => 0
    case DegradedRow => 1
    case Normal => 2
  }

  /** The row style is the first of its three tests that holds. */
  lemma RowStyleIsFirstMatch(iface: Interface)
    ensures RowRank(GetRowStyle(iface)) == FirstTrue(RowConditions(iface))
  {
    var c0 := RowConditions(iface);
    var c1 := c0[1..];
    var c2 := c1[1..];
    assert c2 == [true];
    assert FirstTrue(c1) == if c1[0] then 0 else 1 + FirstTrue(c2);
    assert FirstTrue(c0) == if c0[0] then 0 else 1 + FirstTrue(c1);
  }

  /**
   * Badge and row agree except where their priorities differ: a red row is
   * exactly a missing device, and its badge is "not found" unless the record
   * is degraded; a yellow row always carries the degraded badge; a degraded
   * badge sits on a yellow row unless the device is missing; a plain row
   * never carries the degraded or the not-found badge.
   */
  lemma BadgeAndRowAgree(iface: Interface)
    ensures GetRowStyle(iface) == NotFoundRow <==> !iface.doesExist
    ensures GetRowStyle(iface) == NotFoundRow ==>
              StatusBadge(iface) == NotFound || StatusBadge(iface).DegradedBadge?
    ensures GetRowStyle(iface) == DegradedRow ==> StatusBadge(iface).DegradedBadge?
    ensures StatusBadge(iface).DegradedBadge? ==>
              GetRowStyle(iface) == (if iface.doesExist then DegradedRow else NotFoundRow)
    ensures StatusBadge(iface) == NotFound ==> GetRowStyle(iface) == NotFoundRow
    ensures GetRowStyle(iface) == Normal ==> StatusBadge(iface) in {Down, Up, NoConnectivity}
  {
  }

  /** A section that was opened but never filled shows as a missing device on a red row. */
  lemma FreshRecordShowsNotFound(name: string)
    ensures StatusBadge(NewInterface(name)) == NotFound
    ensures GetRowStyle(NewInterface(name)) == NotFoundRow
  {
  }

  /** The badge shows "UP" exactly for a present, up, non-degraded interface with a positive latency. */
  lemma UpBadgeMeansReachable(iface: Interface)
    ensures StatusBadge(iface) == Up <==>
              !IsDegraded(iface) && iface.doesExist && iface.isUp && LatencyPositive(iface.latency)
  {
  }

  // ---------------------------------------------------------------------
  // formatDuration
  // ---------------------------------------------------------------------

  /**
   * What "last check" shows: nothing known for an empty timestamp, else the
   * elapsed time in one unit; a timestamp that does not parse makes every
   * comparison false and ends in the days branch with NaN.
   */
  datatype Duration = Unknown | Seconds(n: int) | Minutes(n: int) | Hours(n: int) | Days(n: int) | NaNDays

  /** Seconds per unit of a counted duration. */
  function UnitLength(d: Duration): nat {
    match d
    case Minutes(_) => 60
    case Hours(_) => 3600
    case Days(_) => 86400
    case _ => 1
  }

  /** The bucket for `diff` elapsed seconds; `diff` is at least 60 outside the seconds branch, so `/` is floor division. */
  function Bucket(diff: int): (d: Duration)
    ensures d.Seconds? || d.Minutes? || d.Hours? || d.Days?
    ensures d.Minutes? ==> 1 <= d.n < 60
    ensures d.Hours? ==> 1 <= d.n < 24
    ensures d.Days? ==> 1 <= d.n
  {
    if diff < 60 then Seconds(diff)
    else if diff < 3600 then Minutes(diff / 60)
    else if diff < 86400 then Hours(diff / 3600)
    else Days(diff / 86400)
  }

  /** `formatDuration(timestamp)` at the instant `now`. */
  function FormatDuration(timestamp: string, now: int): (d: Duration)
    ensures d == Unknown <==> timestamp == []
    ensures d == NaNDays <==> timestamp != [] && ParseInt(timestamp) == IntNaN
    ensures d.Minutes? ==> 1 <= d.n < 60
    ensures d.Hours? ==> 1 <= d.n < 24
    ensures d.Days? ==> 1 <= d.n
  {
    if timestamp == [] then Unknown
    else
      match ParseInt(timestamp)
      case IntNaN => NaNDays
      case Int(start) => Bucket(now - start)
  }

  /**
   * The count shown is the number of whole units elapsed: exactly the
   * difference below a minute, and otherwise `n` units with less than one
   * more unit left over; the unit is the largest one that fits at least once.
   */
  lemma DurationIsWholeUnits(timestamp: string, now: int, start: int)
    requires timestamp != [] && ParseInt(timestamp) == Int(start)
    ensures var d := FormatDuration(timestamp, now);
            && (d.Seconds? <==> now - start < 60)
            && (d.Seconds? ==> d.n == now - start)
            && (d.Minutes? || d.Hours? || d.Days?)
               == (now - start >= 60)
            && (!d.Seconds? ==>
                  d.n * UnitLength(d) <= now - start < (d.n + 1) * UnitLength(d))
            && (d.Minutes? ==> now - start < 3600)
            && (d.Hours? ==> 3600 <= now - start < 86400)
            && (d.Days? ==> 86400 <= now - start)
  {
    var diff := now - start;
    if diff >= 60 {
      var u := UnitLength(Bucket(diff));
      var n := Bucket(diff).n;
      assert n == diff / u;
      assert n * u <= diff < (n + 1) * u;
    }
  }

  /** The bucket edges: 59 s, 60 s, 3599 s, 3600 s, 86399 s and 86400 s. */
  lemma DurationEdges()
    ensures Bucket(59) == Seconds(59)
    ensures Bucket(60) == Minutes(1)
    ensures Bucket(3599) == Minutes(59)
    ensures Bucket(3600) == Hours(1)
    ensures Bucket(86399) == Hours(23)
    ensures Bucket(86400) == Days(1)
  {
  }

  /** The text of a duration: the count, a space, the unit. */
  function DurationText(d: Duration): string {
    match d
    case Unknown => "Unknown"
    case Seconds(n) => IntToString(n) + " seconds"
    case Minutes(n) => IntToString(n) + " minutes"
    case Hours(n) => IntToString(n) + " hours"
    case Days(n) => IntToString(n) + " days"
    case NaNDays => "NaN days"
  }

  /** The count can be read back from the text shown: `parseInt` of it gives the count. */
  lemma DurationTextReadsBack(d: Duration)
    requires d.Seconds? || d.Minutes? || d.Hours? || d.Days?
    ensures ParseInt(DurationText(d)) == Int(d.n)
  {
    var unit := DurationText(d)[|IntToString(d.n)|..];
    assert DurationText(d) == IntToString(d.n) + unit;
    assert unit[0] == ' ' && !IsDigit(' ', 10);
    ParseIntOfDecimal(d.n, unit);
  }

  // ---------------------------------------------------------------------
  // formatBytes
  // ---------------------------------------------------------------------

  /** 1024 to the power `k`: the size of the `k`-th unit in bytes. */
  function Pow1024(k: nat): (p: nat)
    ensures p >= 1
  {
    if k == 0 then 1 else 1024 * Pow1024(k - 1)
  }

  /** The integer floor of the base-1024 logarithm of `n`. */
  function FloorLog1024(n: nat): nat
    requires n >= 1
  {
    if n < 1024 then 0 else 1 + FloorLog1024(n / 1024)
  }

  /** `FloorLog1024(n)` is the `k` with `1024^k <= n < 1024^(k+1)`. */
  lemma {:induction false} FloorLogBounds(n: nat)
    requires n >= 1
    ensures Pow1024(FloorLog1024(n)) <= n < Pow1024(FloorLog1024(n) + 1)
  {
    if n >= 1024 {
      var m := n / 1024;
      FloorLogBounds(m);
      var k := FloorLog1024(m);
      assert Pow1024(k + 1) == 1024 * Pow1024(k);
      assert Pow1024(k + 2) == 1024 * Pow1024(k + 1);
    }
  }

  /** Larger exponents give larger powers. */
  lemma {:induction false} PowMonotone(i: nat, j: nat)
    requires i <= j
    ensures Pow1024(i) <= Pow1024(j)
  {
    if i < j {
      PowMonotone(i, j - 1);
    }
  }

  /** The units of the traffic counters. */
  datatype ByteUnit = B | KB | MB | GB | TB

  /** The unit at position `i` of `[B, KB, MB, GB, TB]`. */
  function UnitAt(i: nat): (u: ByteUnit)
    requires i <= 4
    ensures UnitIndex(u) == i
  {
    [B, KB, MB, GB, TB][i]
  }

  function UnitIndex(u: ByteUnit): nat {
    match u
    case B => 0
    case KB => 1
    case MB => 2
    case GB => 3
    case TB => 4
  }

  /**
   * What a traffic cell shows: "None" for zero, an amount and a unit for a
   * positive count, and NaN (with no unit) for a negative one, whose
   * logarithm is NaN.
   */
  datatype ByteText = NoneText | Scaled(amount: real, unit: ByteUnit) | NaNText

  /**
   * `formatBytes(bytes)`: the unit is the largest power of 1024 not above
   * the count, capped at terabytes, and the amount is the count in that
   * unit; it is at least 1 and, below the cap, less than 1024.
   */
  function FormatBytes(bytes: int): (r: ByteText)
    ensures r == NoneText <==> bytes == 0
    ensures r == NaNText <==> bytes < 0
    ensures r.Scaled? ==> r.amount * (Pow1024(UnitIndex(r.unit)) as real) == bytes as real
    ensures r.Scaled? ==> 1.0 <= r.amount
    ensures r.Scaled? && r.unit != TB ==> r.amount < 1024.0
  {
    if bytes == 0 then NoneText
    else if bytes < 0 then NaNText
    else
      var i := ScaleIndex(bytes);
      ScaledAmount(bytes as real, Pow1024(i) as real);
      Scaled(bytes as real / Pow1024(i) as real, UnitAt(i))
  }

  /** The index of the unit a positive count is shown in: the floor of its base-1024 logarithm, at most 4. */
  function ScaleIndex(bytes: nat): (i: nat)
    requires bytes >= 1
    ensures i <= 4 && Pow1024(i) <= bytes
    ensures i < 4 ==> bytes < 1024 * Pow1024(i)
  {
    var log := FloorLog1024(bytes);
    FloorLogBounds(bytes);
    PowMonotone(if log > 4 then 4 else log, log);
    if log > 4 then 4 else log
  }

  /** Dividing a count by a unit no larger than it gives an amount of at least 1 that scales back to the count. */
  lemma ScaledAmount(b: real, q: real)
    requires 1.0 <= q <= b
    ensures (b / q) * q == b
    ensures 1.0 <= b / q
    ensures b < 1024.0 * q ==> b / q < 1024.0
  {
    ProductBounds(b / q, q);
  }

  /** For a positive `q`, the product `a * q` is at least `q` only when `a >= 1`, and below `1024 * q` only when `a < 1024`. */
  lemma ProductBounds(a: real, q: real)
    requires q > 0.0
    ensures a * q >= q ==> a >= 1.0
    ensures a * q < 1024.0 * q ==> a < 1024.0
  {
    assert a * q - q == (a - 1.0) * q;
    assert a * q - 1024.0 * q == (a - 1024.0) * q;
  }

  /**
   * The argument the traffic cell gets: the counter read again through
   * `parseInt` (which gives back an integer's own value), with NaN and zero
   * both falling back to 0.
   */
  function TrafficArg(counter: JsInt): (n: int)
    ensures counter == IntNaN ==> n == 0
    ensures counter.Int? ==> n == counter.value
  {
    match counter
    case IntNaN => 0
    case Int(v) =>
      ParseIntRoundTrip(v);
      match ParseInt(IntToString(v))
      case IntNaN => 0
      case Int(w) => w
  }

  // ---------------------------------------------------------------------
  // formatTimestamp
  // ---------------------------------------------------------------------

  /** `formatTimestamp` is called with the global timestamp (a number) and with `status_since` (a string). */
  datatype TimeArg = NumberArg(number: JsInt) | TextArg(text: string)

  /** What a time cell shows: "Never", the local rendering of an instant, or an invalid date. */
  datatype TimeShown = Never | At(seconds: int) | InvalidDate

  /** The largest time value, in milliseconds, a JavaScript `Date` can hold. */
  const MaxTimeMillis: int := 8_640_000_000_000_000

  /** JavaScript truthiness of the argument: a non-empty string, a number other than 0 and NaN. */
  predicate TruthyArg(t: TimeArg) {
    match t
    case TextArg(s) => Truthy(s)
    case NumberArg(IntNaN) => false
    case NumberArg(Int(v)) => v != 0
  }

  /** `parseInt(timestamp)`: a number goes through its decimal text first. */
  function SecondsOf(t: TimeArg): JsInt {
    match t
    case TextArg(s) => ParseInt(s)
    case NumberArg(IntNaN) => IntNaN
    case NumberArg(Int(v)) => ParseInt(IntToString(v))
  }

  /**
   * `formatTimestamp(timestamp)`: "Never" exactly for a falsy argument;
   * otherwise the instant `parseInt(timestamp)` seconds after the epoch,
   * or an invalid date when that does not parse or lies outside the range
   * of a `Date`.
   */
  function FormatTimestamp(t: TimeArg): (r: TimeShown)
    ensures r == Never <==> !TruthyArg(t)
    ensures r.At? ==> SecondsOf(t) == Int(r.seconds) && -MaxTimeMillis <= r.seconds * 1000 <= MaxTimeMillis
    ensures TruthyArg(t) && SecondsOf(t) == IntNaN ==> r == InvalidDate
    ensures TruthyArg(t) && SecondsOf(t).Int? && -MaxTimeMillis <= SecondsOf(t).value * 1000 <= MaxTimeMillis
            ==> r == At(SecondsOf(t).value)
    ensures TruthyArg(t) && SecondsOf(t).Int? && !(-MaxTimeMillis <= SecondsOf(t).value * 1000 <= MaxTimeMillis)
            ==> r == InvalidDate
  {
    if !TruthyArg(t) then Never
    else
      match SecondsOf(t)
      case IntNaN => InvalidDate
      case Int(v) => if -MaxTimeMillis <= v * 1000 <= MaxTimeMillis then At(v) else InvalidDate
  }

  /** A non-zero number and its decimal text show the same instant. */
  lemma TimestampTextMatchesNumber(v: int)
    requires v != 0
    ensures FormatTimestamp(TextArg(IntToString(v))) == FormatTimestamp(NumberArg(Int(v)))
  {
    ParseIntRoundTrip(v);
    SameReadingSameShown(TextArg(IntToString(v)), NumberArg(Int(v)));
  }

  /** What a time cell shows depends only on the argument's truthiness and on what `parseInt` reads from it. */
  lemma SameReadingSameShown(a: TimeArg, b: TimeArg)
    requires TruthyArg(a) == TruthyArg(b) && SecondsOf(a) == SecondsOf(b)
    ensures FormatTimestamp(a) == FormatTimestamp(b)
  {
  }

  /** Zero is the exception: the number 0 is falsy and shows "Never", the text "0" is the epoch. */
  lemma TimestampZero()
    ensures FormatTimestamp(NumberArg(Int(0))) == Never
    ensures FormatTimestamp(TextArg("0")) == At(0)
  {
    var zero := IntToString(0);
    ParseIntRoundTrip(0);
    assert zero == "0";
    assert SecondsOf(TextArg(zero)) == Int(0);
  }

  // ---------------------------------------------------------------------
  // render
  // ---------------------------------------------------------------------

  /** The mode line: failover for the text `failover`, load balancing for anything else. */
  datatype ModeShown = Failover | MultiUplink

  /** One row of the interface table. */
  datatype Row = Row(
    device: string,
    badge: Badge,
    style: RowStyle,
    since: TimeShown,
    latency: Option<JsFloat>,
    rx: ByteText,
    tx: ByteText,
    pingTarget: string,
    gateway: string,
    lastCheck: Duration)

  /** The page: only the notice that no status is available, or the service information and one row per interface. */
  datatype Page =
    | NoStatusNotice
    | StatusPage(mode: ModeShown, checkInterval: JsInt, lastUpdate: TimeShown, rows: seq<Row>)

  /** A string shown with `-` in place of the empty string. */
  function OrDash(s: string): (r: string)
    ensures r != []
    ensures s != [] ==> r == s
  {
    if s == [] then "-" else s
  }

  /** JavaScript truthiness of a parsed number: NaN and zero are falsy. */
  predicate TruthyFloat(x: JsFloat) {
    match x
    case FloatNaN => false
    case Infinity(_) => true
    case Float(v) => v != 0.0
  }

  /** The row of one interface at the instant `now`. */
  function RowOf(iface: Interface, now: int): (row: Row)
    ensures row.device == iface.name
    ensures row.latency == None <==> !TruthyFloat(iface.latency)
  {
    Row(iface.name,
        StatusBadge(iface),
        GetRowStyle(iface),
        FormatTimestamp(TextArg(iface.statusSince)),
        if TruthyFloat(iface.latency) then Some(iface.latency) else None,
        FormatBytes(TrafficArg(iface.rxBytes)),
        FormatBytes(TrafficArg(iface.txBytes)),
        OrDash(iface.pingTarget),
        OrDash(iface.gateway),
        FormatDuration(iface.lastCheck, now))
  }

  /** The page for one snapshot, or for none. */
  function PageOf(status: Option<Snapshot>, now: int): (p: Page)
    ensures p == NoStatusNotice <==> status == None || status.value.interfaces == []
    ensures p.StatusPage? ==> |p.rows| == |status.value.interfaces|
    ensures p.StatusPage? ==> forall k :: 0 <= k < |p.rows| ==> p.rows[k] == RowOf(status.value.interfaces[k], now)
  {
    if status == None || status.value.interfaces == [] then NoStatusNotice
    else
      var s := status.value;
      StatusPage(
        if s.mode == "failover" then Failover else MultiUplink,
        s.checkInterval,
        FormatTimestamp(NumberArg(s.timestamp)),
        seq(|s.interfaces|, k requires 0 <= k < |s.interfaces| => RowOf(s.interfaces[k], now)))
  }

  /**
   * `render(data)`: the page shows only the no-status notice exactly when
   * the content is absent or empty or has no section header; otherwise it
   * has one row per header line.
   */
  function Render(data: Option<string>, now: int): (p: Page)
    ensures p == NoStatusNotice <==>
              data == None || data == Some([]) || HeaderNames(ClassifyAll(Lines(data.value))) == []
    ensures p.StatusPage? ==> |p.rows| == |HeaderNames(ClassifyAll(Lines(data.value)))|
  {
    ParsedRecordCount(data);
    PageOf(Parse(data), now)
  }

  /**
   * Each row names the device of its header, in file order, when no line
   * renames a record with `name=`.
   */
  lemma RowsFollowHeaders(d: string, now: int)
    requires d != [] && !Assigns(ClassifyAll(Lines(d)), "name")
    ensures var p := Render(Some(d), now);
            p.StatusPage? ==>
              forall k :: 0 <= k < |p.rows| ==> p.rows[k].device == HeaderNames(ClassifyAll(Lines(d)))[k]
  {
    InterfacesFollowHeaders(ClassifyAll(Lines(d)));
  }
}

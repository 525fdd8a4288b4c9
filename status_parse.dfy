/**
 * The interpreter of the mini-mwan status file (`/var/run/mini-mwan.status`)
 * used by the LuCI status page.  The file is read line by line: global
 * `key=value` lines come first, then each `[device]` header opens the record
 * of one monitored WAN interface, and the `key=value` lines after it fill
 * that record.  Values are coerced by key name; lines of any other shape are
 * skipped.
 *
 * The page's parser is a loop that remembers the record opened
 * last.  Here the records are values: the current record is always the last
 * element of `interfaces`, so updating "the current interface" is updating
 * that element.  `Fold` is the same loop as a fold over the lines and is the
 * specification the loop in `ParseStatus` is proved against.
 */
module StatusParse {
  import opened JsText
  import opened JsNumber

  /** The record of one monitored interface; keys outside the fixed set are kept in `extra`. */
  datatype Interface = Interface(
    name: string,
    doesExist: bool,
    isUp: bool,
    degraded: JsInt,
    degradedReason: string,
    statusSince: string,
    lastCheck: string,
    latency: JsFloat,
    gateway: string,
    pingTarget: string,
    rxBytes: JsInt,
    txBytes: JsInt,
    extra: map<string, string>)

  /** One parsed snapshot: the global fields, other global keys in `extra`, and the interfaces in file order. */
  datatype Snapshot = Snapshot(
    mode: string,
    timestamp: JsInt,
    checkInterval: JsInt,
    extra: map<string, string>,
    interfaces: seq<Interface>)

  /** What a record holds under one key, whatever its type. */
  datatype FieldValue = Flag(b: bool) | Integer(i: JsInt) | Decimal(f: JsFloat) | Text(s: string)

  /** The keys of an interface record: the fixed fields, and any other key by its text. */
  datatype IfaceKey =
    | Name | DoesExist | IsUp | Degraded | DegradedReason | StatusSince | LastCheck
    | Latency | Gateway | PingTarget | RxBytes | TxBytes | OtherKey(text: string)

  /** The key a `key=value` line inside a section names. */
  function IfaceKeyOf(key: string): (k: IfaceKey)
    ensures k.OtherKey? ==> k.text == key
  {
    if key == "name" then Name
    else if key == "does_exist" then DoesExist
    else if key == "is_up" then IsUp
    else if key == "degraded" then Degraded
    else if key == "degraded_reason" then DegradedReason
    else if key == "status_since" then StatusSince
    else if key == "last_check" then LastCheck
    else if key == "latency" then Latency
    else if key == "gateway" then Gateway
    else if key == "ping_target" then PingTarget
    else if key == "rx_bytes" then RxBytes
    else if key == "tx_bytes" then TxBytes
    else OtherKey(key)
  }

  /** The text a key is written with in the file. */
  function IfaceKeyText(k: IfaceKey): string {
    match k
    case Name => "name"
    case DoesExist => "does_exist"
    case IsUp => "is_up"
    case Degraded => "degraded"
    case DegradedReason => "degraded_reason"
    case StatusSince => "status_since"
    case LastCheck => "last_check"
    case Latency => "latency"
    case Gateway => "gateway"
    case PingTarget => "ping_target"
    case RxBytes => "rx_bytes"
    case TxBytes => "tx_bytes"
    case OtherKey(t) => t
  }

  /** Every key text names the key written with that text. */
  lemma IfaceKeyRoundTrip(key: string)
    ensures IfaceKeyText(IfaceKeyOf(key)) == key
  {
    if key == "name" || key == "does_exist" || key == "is_up" || key == "degraded" {
    } else if key == "degraded_reason" || key == "status_since" || key == "last_check" {
    } else if key == "latency" || key == "gateway" || key == "ping_target" {
    } else if key == "rx_bytes" || key == "tx_bytes" {
    }
  }

  /** Different key texts name different keys. */
  lemma IfaceKeyOfInjective(a: string, b: string)
    requires IfaceKeyOf(a) == IfaceKeyOf(b)
    ensures a == b
  {
    IfaceKeyRoundTrip(a);
    IfaceKeyRoundTrip(b);
  }

  /** The record a `[name]` header opens: everything false, zero or empty except the name. */
  function NewInterface(name: string): Interface {
    Interface(name, false, false, Int(0), "", "", "", Float(0.0), "", "", Int(0), Int(0), map[])
  }

  /** The snapshot before the first line: `mode` empty, `timestamp` 0, `check_interval` 30, no interfaces. */
  const Initial: Snapshot := Snapshot("", Int(0), Int(30), map[], [])

  /** What `iface[key]` reads: a fixed field, a pass-through key, or nothing. */
  function Field(iface: Interface, key: IfaceKey): Option<FieldValue> {
    match key
    case Name => Some(Text(iface.name))
    case DoesExist => Some(Flag(iface.doesExist))
    case IsUp => Some(Flag(iface.isUp))
    case Degraded => Some(Integer(iface.degraded))
    case DegradedReason => Some(Text(iface.degradedReason))
    case StatusSince => Some(Text(iface.statusSince))
    case LastCheck => Some(Text(iface.lastCheck))
    case Latency => Some(Decimal(iface.latency))
    case Gateway => Some(Text(iface.gateway))
    case PingTarget => Some(Text(iface.pingTarget))
    case RxBytes => Some(Integer(iface.rxBytes))
    case TxBytes => Some(Integer(iface.txBytes))
    case OtherKey(k) => if k in iface.extra then Some(Text(iface.extra[k])) else None
  }

  /**
   * The coercion a value assigned inside a section gets, chosen by its key:
   * `does_exist` and `is_up` are true exactly for the text `1`; `degraded`,
   * `rx_bytes` and `tx_bytes` go through `parseInt`; `latency` through
   * `parseFloat`; every other key keeps the text.
   */
  function Coerce(key: IfaceKey, value: string): FieldValue {
    match key
    case DoesExist | IsUp => Flag(value == "1")
    case Degraded | RxBytes | TxBytes => Integer(ParseInt(value))
    case Latency => Decimal(ParseFloat(value))
    case _ => Text(value)
  }

  /** `iface[key] = <coerced value>`: the key now reads as the coerced value and no other key changes. */
  function SetField(iface: Interface, key: IfaceKey, value: string): (r: Interface)
    ensures Field(r, key) == Some(Coerce(key, value))
    ensures forall k :: k != key ==> Field(r, k) == Field(iface, k)
  {
    match key
    case Name => iface.(name := value)
    case DoesExist => iface.(doesExist := value == "1")
    case IsUp => iface.(isUp := value == "1")
    case Degraded => iface.(degraded := ParseInt(value))
    case DegradedReason => iface.(degradedReason := value)
    case StatusSince => iface.(statusSince := value)
    case LastCheck => iface.(lastCheck := value)
    case Latency => iface.(latency := ParseFloat(value))
    case Gateway => iface.(gateway := value)
    case PingTarget => iface.(pingTarget := value)
    case RxBytes => iface.(rxBytes := ParseInt(value))
    case TxBytes => iface.(txBytes := ParseInt(value))
    case OtherKey(k) => iface.(extra := iface.extra[k := value])
  }

  /** The global keys: the three fixed fields, and any other key by its text. */
  datatype GlobalKey = ModeKey | TimestampKey | CheckIntervalKey | OtherGlobalKey(text: string)

  /** The key a `key=value` line before the first header names. */
  function GlobalKeyOf(key: string): (k: GlobalKey)
    ensures k.OtherGlobalKey? ==> k.text == key
  {
    if key == "mode" then ModeKey
    else if key == "timestamp" then TimestampKey
    else if key == "check_interval" then CheckIntervalKey
    else OtherGlobalKey(key)
  }

  /** The text a global key is written with in the file. */
  function GlobalKeyText(k: GlobalKey): string {
    match k
    case ModeKey => "mode"
    case TimestampKey => "timestamp"
    case CheckIntervalKey => "check_interval"
    case OtherGlobalKey(t) => t
  }

  /** Every global key text names the key written with that text. */
  lemma GlobalKeyRoundTrip(key: string)
    ensures GlobalKeyText(GlobalKeyOf(key)) == key
  {
  }

  /** Different key texts name different global keys. */
  lemma GlobalKeyOfInjective(a: string, b: string)
    requires GlobalKeyOf(a) == GlobalKeyOf(b)
    ensures a == b
  {
    GlobalKeyRoundTrip(a);
    GlobalKeyRoundTrip(b);
  }

  /** What `status[key]` reads for a global key (the interface list is not one of them here). */
  function GlobalField(s: Snapshot, key: GlobalKey): Option<FieldValue> {
    match key
    case ModeKey => Some(Text(s.mode))
    case TimestampKey => Some(Integer(s.timestamp))
    case CheckIntervalKey => Some(Integer(s.checkInterval))
    case OtherGlobalKey(k) => if k in s.extra then Some(Text(s.extra[k])) else None
  }

  /** The coercion of a global value: `timestamp` and `check_interval` go through `parseInt`, the rest keeps the text. */
  function GlobalCoerce(key: GlobalKey, value: string): FieldValue {
    match key
    case TimestampKey | CheckIntervalKey => Integer(ParseInt(value))
    case _ => Text(value)
  }

  /** A global assignment; the interface list stays as it is. */
  function SetGlobal(s: Snapshot, key: GlobalKey, value: string): (r: Snapshot)
    ensures r.interfaces == s.interfaces
  {
    match key
    case TimestampKey => s.(timestamp := ParseInt(value))
    case CheckIntervalKey => s.(checkInterval := ParseInt(value))
    case ModeKey => s.(mode := value)
    case OtherGlobalKey(k) => s.(extra := s.extra[k := value])
  }

  /** After a global assignment the key reads as the coerced value and no other global key changes. */
  lemma SetGlobalReads(s: Snapshot, key: GlobalKey, value: string)
    ensures GlobalField(SetGlobal(s, key, value), key) == Some(GlobalCoerce(key, value))
    ensures forall k :: k != key ==> GlobalField(SetGlobal(s, key, value), k) == GlobalField(s, k)
  {
    var r := SetGlobal(s, key, value);
    forall k | k != key
      ensures GlobalField(r, k) == GlobalField(s, k)
    {
      match k
      case ModeKey =>
      case TimestampKey =>
      case CheckIntervalKey =>
      case OtherGlobalKey(t) =>
        assert key.OtherGlobalKey? ==> key.text != t;
    }
  }

  /** The four kinds of line, after trimming. */
  datatype Line = Blank | Header(name: string) | Assignment(key: string, value: string) | Malformed

  /**
   * A trimmed line that matches `^\[(.+)\]$`: a `[`, at least one character
   * other than a line terminator, and a `]` that ends the line.  The name
   * may itself contain `]`.
   */
  predicate IsHeader(t: string) {
    && |t| >= 3 && t[0] == '[' && t[|t| - 1] == ']'
    && forall k :: 1 <= k < |t| - 1 ==> !IsLineTerminator(t[k])
  }

  /**
   * One line as the loop sees it: trimmed; empty lines are blank; headers
   * are checked before anything else; otherwise the line must split on `=`
   * into exactly two pieces, which are trimmed into key and value.
   */
  function Classify(raw: string): Line {
    ClassifyTrimmed(Trim(raw))
  }

  /** The decision of `Classify`, on the already trimmed line. */
  function ClassifyTrimmed(t: string): Line {
    if t == [] then Blank
    else if IsHeader(t) then Header(t[1..|t| - 1])
    else
      var kv := Split(t, '=');
      if |kv| != 2 then Malformed else Assignment(Trim(kv[0]), Trim(kv[1]))
  }

  /** A line classified as a header named `name` is, trimmed, `[` + `name` + `]`, with `name` non-empty and free of line terminators. */
  lemma HeaderIsFramedName(raw: string, name: string)
    requires Classify(raw) == Header(name)
    ensures Trim(raw) == ['['] + name + [']'] && name != []
    ensures forall k :: 0 <= k < |name| ==> !IsLineTerminator(name[k])
  {
    var t := Trim(raw);
    ClassifiedHeader(t);
    HeaderFrames(t);
  }

  /** Only a trimmed line that is a header is classified as one, named by the text between its brackets. */
  lemma ClassifiedHeader(t: string)
    requires ClassifyTrimmed(t).Header?
    ensures IsHeader(t) && ClassifyTrimmed(t).name == t[1..|t| - 1]
  {
  }

  /** A header is its name between brackets. */
  lemma HeaderFrames(t: string)
    requires IsHeader(t)
    ensures t == ['['] + t[1..|t| - 1] + [']'] && t[1..|t| - 1] != []
  {
    assert t == [t[0]] + t[1..|t| - 1] + [t[|t| - 1]];
  }

  /** A non-empty name free of line terminators, between brackets, is a header of that name. */
  lemma FramedIsHeader(name: string)
    requires name != [] && forall k :: 0 <= k < |name| ==> !IsLineTerminator(name[k])
    ensures IsHeader(['['] + name + [']'])
    ensures (['['] + name + [']'])[1..|name| + 1] == name
  {
    var t := ['['] + name + [']'];
    assert forall k :: 1 <= k < |t| - 1 ==> t[k] == name[k - 1];
  }

  /** A line that trims to `[` + `name` + `]`, for a non-empty `name` free of line terminators, is that header. */
  lemma FramedNameIsHeader(raw: string, name: string)
    requires Trim(raw) == ['['] + name + [']'] && name != []
    requires forall k :: 0 <= k < |name| ==> !IsLineTerminator(name[k])
    ensures Classify(raw) == Header(name)
  {
    FramedIsHeader(name);
  }

  /** A header line is exactly `[`, the name, `]` (white space around it aside), for a non-empty name without line terminators. */
  lemma ClassifyHeader(raw: string, name: string)
    ensures Classify(raw) == Header(name) <==>
              Trim(raw) == ['['] + name + [']'] && name != []
              && forall k :: 0 <= k < |name| ==> !IsLineTerminator(name[k])
  {
    if Classify(raw) == Header(name) {
      HeaderIsFramedName(raw, name);
    }
    if Trim(raw) == ['['] + name + [']'] && name != [] && forall k :: 0 <= k < |name| ==> !IsLineTerminator(name[k]) {
      FramedNameIsHeader(raw, name);
    }
  }

  /**
   * A line is an assignment exactly when, trimmed, it is neither empty nor a
   * header and holds exactly one `=`; the key is then the trimmed text before
   * it and the value the trimmed text after it.  A line with no `=`, or with
   * two or more, is malformed.
   */
  lemma ClassifyAssignment(raw: string)
    ensures Classify(raw).Assignment? <==>
              Trim(raw) != [] && !IsHeader(Trim(raw)) && Count(Trim(raw), '=') == 1
    ensures Classify(raw).Malformed? <==>
              Trim(raw) != [] && !IsHeader(Trim(raw)) && Count(Trim(raw), '=') != 1
    ensures Classify(raw).Assignment? ==>
              exists before, after ::
                && Trim(raw) == before + "=" + after && '=' !in before && '=' !in after
                && Classify(raw) == Assignment(Trim(before), Trim(after))
  {
    var t := Trim(raw);
    SplitInTwo(t, '=');
    if Classify(raw).Assignment? {
      var kv := Split(t, '=');
      assert t == kv[0] + "=" + kv[1];
    }
  }

  /** The last interface, the one the loop treats as current, after `key=value`. */
  function UpdateLast(ifaces: seq<Interface>, key: string, value: string): (r: seq<Interface>)
    requires |ifaces| > 0
    ensures |r| == |ifaces| && r[..|r| - 1] == ifaces[..|ifaces| - 1]
    ensures r[|r| - 1] == SetField(ifaces[|ifaces| - 1], IfaceKeyOf(key), value)
  {
    ifaces[|ifaces| - 1 := SetField(ifaces[|ifaces| - 1], IfaceKeyOf(key), value)]
  }

  /**
   * One iteration of the loop, on a classified line.  Blank and malformed
   * lines change nothing; a header appends a new record; an assignment goes
   * to the last record once there is one, and to the globals before that.
   */
  function Apply(s: Snapshot, line: Line): Snapshot {
    match line
    case Blank => s
    case Malformed => s
    case Header(name) => s.(interfaces := s.interfaces + [NewInterface(name)])
    case Assignment(key, value) =>
      if |s.interfaces| > 0 then s.(interfaces := UpdateLast(s.interfaces, key, value))
      else SetGlobal(s, GlobalKeyOf(key), value)
  }

  /** The loop run over a sequence of classified lines, from `Initial`. */
  function Fold(lines: seq<Line>): Snapshot {
    if lines == [] then Initial else Apply(Fold(lines[..|lines| - 1]), lines[|lines| - 1])
  }

  /** Every line, classified. */
  function ClassifyAll(raw: seq<string>): (lines: seq<Line>)
    ensures |lines| == |raw| && forall k :: 0 <= k < |raw| ==> lines[k] == Classify(raw[k])
  {
    seq(|raw|, k requires 0 <= k < |raw| => Classify(raw[k]))
  }

  /** The lines of the file: the whole text trimmed, then split at each line feed. */
  function Lines(data: string): seq<string> {
    Split(Trim(data), '\n')
  }

  /** The parse of the file's content, or nothing when the content is absent or empty. */
  function Parse(data: Option<string>): (r: Option<Snapshot>)
    ensures r == None <==> data == None || data == Some([])
  {
    match data
    case None => None
    case Some(d) => if d == [] then None else Some(Fold(ClassifyAll(Lines(d))))
  }

  /** Folding one more line at the end applies it to the fold of the rest. */
  lemma FoldSnoc(lines: seq<Line>, x: Line)
    ensures Fold(lines + [x]) == Apply(Fold(lines), x)
  {
    assert (lines + [x])[..|lines|] == lines;
  }

  /** Appending a non-empty sequence is appending all of it but its last element, then that element. */
  lemma SplitLast(a: seq<Line>, post: seq<Line>)
    requires post != []
    ensures a + post == (a + post[..|post| - 1]) + [post[|post| - 1]]
  {
    assert post == post[..|post| - 1] + [post[|post| - 1]];
  }

  /** One more line of the loop is one more step of the fold. */
  lemma FoldOneMore(lines: seq<Line>, i: nat)
    requires i < |lines|
    ensures Fold(lines[..i + 1]) == Apply(Fold(lines[..i]), lines[i])
  {
    assert lines[..i + 1][..i] == lines[..i];
  }

  /** A line that trims to nothing is skipped. */
  lemma BlankStep(st: Snapshot, raw: string)
    requires Trim(raw) == []
    ensures Apply(st, Classify(raw)) == st
  {
  }

  /** A header line appends a fresh record named by the text between the brackets. */
  lemma HeaderStep(st: Snapshot, raw: string, t: string)
    requires t == Trim(raw) && t != [] && IsHeader(t)
    ensures Apply(st, Classify(raw)) == st.(interfaces := st.interfaces + [NewInterface(t[1..|t| - 1])])
  {
    assert Classify(raw) == Header(t[1..|t| - 1]);
  }

  /** A line that is neither blank nor a header and does not split in two on `=` is skipped. */
  lemma MalformedStep(st: Snapshot, raw: string, t: string)
    requires t == Trim(raw) && t != [] && !IsHeader(t) && |Split(t, '=')| != 2
    ensures Apply(st, Classify(raw)) == st
  {
    assert Classify(raw) == Malformed;
  }

  /** Otherwise the line assigns its trimmed value to its trimmed key. */
  lemma AssignmentStep(st: Snapshot, raw: string, t: string, key: string, value: string)
    requires t == Trim(raw) && t != [] && !IsHeader(t) && |Split(t, '=')| == 2
    requires key == Trim(Split(t, '=')[0]) && value == Trim(Split(t, '=')[1])
    ensures Apply(st, Classify(raw)) == Apply(st, Assignment(key, value))
  {
    assert Classify(raw) == Assignment(key, value);
  }

  /**
   * Storing one assignment: in the current record when there is one, and
   * in the globals otherwise; the number of records does not change.
   */
  method Assign(st: Snapshot, haveCurrent: bool, key: string, value: string) returns (next: Snapshot)
    requires haveCurrent <==> |st.interfaces| > 0
    ensures next == Apply(st, Assignment(key, value))
    ensures |next.interfaces| == |st.interfaces|
  {
    if haveCurrent {
      next := st.(interfaces := UpdateLast(st.interfaces, key, value));
    } else {
      next := SetGlobal(st, GlobalKeyOf(key), value);
    }
  }

  /**
   * The body of `parseStatus`'s loop for one raw line: trim it, skip it when
   * empty, open a record on a header, skip it unless it splits on `=` into
   * exactly two pieces, and store the trimmed value under the trimmed key,
   * in the current record when there is one and in the globals otherwise.
   */
  method ParseLine(st: Snapshot, haveCurrent: bool, raw: string) returns (next: Snapshot, haveNext: bool)
    requires haveCurrent <==> |st.interfaces| > 0
    ensures next == Apply(st, Classify(raw))
    ensures haveNext <==> |next.interfaces| > 0
  {
    var line := Trim(raw);
    if line == [] {
      BlankStep(st, raw);
      return st, haveCurrent;
    }
    if IsHeader(line) {
      HeaderStep(st, raw, line);
      var current := NewInterface(line[1..|line| - 1]);
      return st.(interfaces := st.interfaces + [current]), true;
    }
    var kv := Split(line, '=');
    if |kv| != 2 {
      MalformedStep(st, raw, line);
      return st, haveCurrent;
    }
    var key := Trim(kv[0]);
    var value := Trim(kv[1]);
    AssignmentStep(st, raw, line, key, value);
    next := Assign(st, haveCurrent, key, value);
    haveNext := haveCurrent;
  }

  /**
   * `parseStatus`: nothing for absent or empty content; otherwise the loop
   * over the lines remembering the current interface (`haveCurrent`
   * says whether it is set; it is the last record).  It computes `Parse`.
   */
  method ParseStatus(data: Option<string>) returns (status: Option<Snapshot>)
    ensures status == Parse(data)
  {
    if data == None || data == Some([]) {
      return None;
    }
    var st := Initial;
    var haveCurrent := false;
    var lines := Split(Trim(data.value), '\n');
    ghost var classified := ClassifyAll(lines);
    for i := 0 to |lines|
      invariant st == Fold(classified[..i])
      invariant haveCurrent <==> |st.interfaces| > 0
    {
      FoldOneMore(classified, i);
      st, haveCurrent := ParseLine(st, haveCurrent, lines[i]);
    }
    assert classified[..|lines|] == classified;
    return Some(st);
  }

  // ---------------------------------------------------------------------
  // Properties of the fold.
  // ---------------------------------------------------------------------

  /** The names of the header lines, in order. */
  function HeaderNames(lines: seq<Line>): seq<string> {
    if lines == [] then []
    else
      var rest := HeaderNames(lines[..|lines| - 1]);
      match lines[|lines| - 1]
      case Header(name) => rest + [name]
      case _ => rest
  }

  /** Some line assigns `key`. */
  predicate Assigns(lines: seq<Line>, key: string) {
    exists k :: 0 <= k < |lines| && lines[k].Assignment? && lines[k].key == key
  }

  /** Some line is a header. */
  predicate HasHeader(lines: seq<Line>) {
    exists k :: 0 <= k < |lines| && lines[k].Header?
  }

  /**
   * Each header line appends exactly one record, so there are as many
   * interfaces as header lines; record `k` was opened by header `k` and
   * bears its name unless a `name=` line renamed it.
   */
  lemma {:induction false} InterfacesFollowHeaders(lines: seq<Line>)
    ensures |Fold(lines).interfaces| == |HeaderNames(lines)|
    ensures !Assigns(lines, "name") ==>
              forall k :: 0 <= k < |HeaderNames(lines)| ==> Fold(lines).interfaces[k].name == HeaderNames(lines)[k]
  {
    if lines != [] {
      var pre := lines[..|lines| - 1];
      var x := lines[|lines| - 1];
      InterfacesFollowHeaders(pre);
      ApplyCountsHeaders(Fold(pre), x);
      if !Assigns(lines, "name") {
        assert !Assigns(pre, "name") by {
          forall k | 0 <= k < |pre| ensures pre[k] == lines[k] { }
        }
        ApplyKeepsNames(Fold(pre), x);
      }
    }
  }

  /** A step adds one record for a header line and none for any other line. */
  lemma ApplyCountsHeaders(s: Snapshot, x: Line)
    ensures |Apply(s, x).interfaces| == |s.interfaces| + (if x.Header? then 1 else 0)
  {
  }

  /** A step that is not a `name=` line renames no record, and a header names the record it opens. */
  lemma ApplyKeepsNames(s: Snapshot, x: Line)
    requires !(x.Assignment? && x.key == "name")
    ensures forall k :: 0 <= k < |s.interfaces| ==> Apply(s, x).interfaces[k].name == s.interfaces[k].name
    ensures x.Header? ==> Apply(s, x).interfaces[|s.interfaces|].name == x.name
  {
    if x.Assignment? && |s.interfaces| > 0 {
      var last := s.interfaces[|s.interfaces| - 1];
      assert IfaceKeyOf(x.key) != Name;
      assert Field(SetField(last, IfaceKeyOf(x.key), x.value), Name) == Field(last, Name);
    }
  }

  /** The loop has a current interface exactly when a header has been read. */
  lemma {:induction false} CurrentSetIffHeaderSeen(lines: seq<Line>)
    ensures |Fold(lines).interfaces| > 0 <==> HasHeader(lines)
  {
    if lines != [] {
      var pre := lines[..|lines| - 1];
      CurrentSetIffHeaderSeen(pre);
      if HasHeader(pre) {
        var k :| 0 <= k < |pre| && pre[k].Header?;
        assert lines[k] == pre[k];
      }
      if HasHeader(lines) && !lines[|lines| - 1].Header? {
        var k :| 0 <= k < |lines| && lines[k].Header?;
        assert pre[k] == lines[k];
      }
    }
  }

  /** A blank or malformed line, wherever it stands, changes nothing. */
  lemma {:induction false} SkippedLineIsNoOp(pre: seq<Line>, line: Line, post: seq<Line>)
    requires line.Blank? || line.Malformed?
    ensures Fold(pre + [line] + post) == Fold(pre + post)
  {
    if post == [] {
      FoldSnoc(pre, line);
      assert pre + [line] + post == pre + [line];
      assert pre + post == pre;
    } else {
      var init := post[..|post| - 1];
      var x := post[|post| - 1];
      SkippedLineIsNoOp(pre, line, init);
      SplitLast(pre + [line], post);
      SplitLast(pre, post);
      FoldSnoc(pre + [line] + init, x);
      FoldSnoc(pre + init, x);
    }
  }

  /** The global fields of a snapshot, its interfaces left aside. */
  function Globals(s: Snapshot): Snapshot {
    s.(interfaces := [])
  }

  /**
   * Once a header has been read, no later line touches the globals, and the
   * records before the current one never change again; records are only
   * ever appended.
   */
  lemma {:induction false} SectionsFreezeEarlierState(pre: seq<Line>, post: seq<Line>)
    requires |Fold(pre).interfaces| > 0
    ensures Globals(Fold(pre + post)) == Globals(Fold(pre))
    ensures |Fold(pre + post).interfaces| >= |Fold(pre).interfaces|
    ensures Fold(pre + post).interfaces[..|Fold(pre).interfaces| - 1]
            == Fold(pre).interfaces[..|Fold(pre).interfaces| - 1]
  {
    if post == [] {
      assert pre + post == pre;
    } else {
      var init := post[..|post| - 1];
      SectionsFreezeEarlierState(pre, init);
      assert (pre + post)[..|pre + post| - 1] == pre + init;
      var n := |Fold(pre).interfaces| - 1;
      var before := Fold(pre + init).interfaces;
      var after := Fold(pre + post).interfaces;
      assert after[..n] == before[..n] by {
        assert after[..|before| - 1] == before[..|before| - 1];
      }
    }
  }

  /**
   * Inside a section, the last assignment to a key wins: after `key=value`,
   * lines that neither open a section nor assign the same key leave the key
   * reading as the coerced value, in the same record.
   */
  lemma {:induction false} LastSectionValueWins(pre: seq<Line>, key: string, value: string, post: seq<Line>)
    requires |Fold(pre).interfaces| > 0
    requires !HasHeader(post) && !Assigns(post, key)
    ensures |Fold(pre + [Assignment(key, value)] + post).interfaces| == |Fold(pre).interfaces|
    ensures Field(Fold(pre + [Assignment(key, value)] + post).interfaces[|Fold(pre).interfaces| - 1], IfaceKeyOf(key))
            == Some(Coerce(IfaceKeyOf(key), value))
  {
    var line := Assignment(key, value);
    if post == [] {
      FoldSnoc(pre, line);
      assert pre + [line] + post == pre + [line];
    } else {
      var init := post[..|post| - 1];
      var x := post[|post| - 1];
      assert !HasHeader(init) && !Assigns(init, key) by {
        forall k | 0 <= k < |init| ensures init[k] == post[k] { }
      }
      LastSectionValueWins(pre, key, value, init);
      SplitLast(pre + [line], post);
      FoldSnoc(pre + [line] + init, x);
      assert !x.Header? && !(x.Assignment? && x.key == key);
      SectionStepKeeps(Fold(pre + [line] + init), key, x);
    }
  }

  /**
   * Inside a section, a line that is not a header and does not assign `key`
   * leaves `key` of the current record as it was.
   */
  lemma SectionStepKeeps(s: Snapshot, key: string, x: Line)
    requires |s.interfaces| > 0
    requires !x.Header? && !(x.Assignment? && x.key == key)
    ensures |Apply(s, x).interfaces| == |s.interfaces|
    ensures Field(Apply(s, x).interfaces[|s.interfaces| - 1], IfaceKeyOf(key))
            == Field(s.interfaces[|s.interfaces| - 1], IfaceKeyOf(key))
  {
    if x.Assignment? {
      var k2 := IfaceKeyOf(x.key);
      assert k2 != IfaceKeyOf(key) by {
        if k2 == IfaceKeyOf(key) {
          IfaceKeyOfInjective(x.key, key);
        }
      }
    }
  }

  /**
   * Before the first header, the last assignment to a global key wins:
   * after `key=value`, lines that neither open a section nor assign the same
   * key leave the key reading as the coerced value.
   */
  lemma {:induction false} LastGlobalValueWins(pre: seq<Line>, key: string, value: string, post: seq<Line>)
    requires |Fold(pre).interfaces| == 0
    requires !HasHeader(post) && !Assigns(post, key)
    ensures |Fold(pre + [Assignment(key, value)] + post).interfaces| == 0
    ensures GlobalField(Fold(pre + [Assignment(key, value)] + post), GlobalKeyOf(key))
            == Some(GlobalCoerce(GlobalKeyOf(key), value))
  {
    var line := Assignment(key, value);
    if post == [] {
      FoldSnoc(pre, line);
      assert pre + [line] + post == pre + [line];
      SetGlobalReads(Fold(pre), GlobalKeyOf(key), value);
    } else {
      var init := post[..|post| - 1];
      var x := post[|post| - 1];
      assert !HasHeader(init) && !Assigns(init, key) by {
        forall k | 0 <= k < |init| ensures init[k] == post[k] { }
      }
      LastGlobalValueWins(pre, key, value, init);
      SplitLast(pre + [line], post);
      FoldSnoc(pre + [line] + init, x);
      assert !x.Header? && !(x.Assignment? && x.key == key);
      GlobalStepKeeps(Fold(pre + [line] + init), key, x);
    }
  }

  /**
   * Before the first header, a line that is not a header and does not
   * assign `key` leaves the global `key` as it was.
   */
  lemma GlobalStepKeeps(s: Snapshot, key: string, x: Line)
    requires |s.interfaces| == 0
    requires !x.Header? && !(x.Assignment? && x.key == key)
    ensures |Apply(s, x).interfaces| == 0
    ensures GlobalField(Apply(s, x), GlobalKeyOf(key)) == GlobalField(s, GlobalKeyOf(key))
  {
    if x.Assignment? {
      var k2 := GlobalKeyOf(x.key);
      assert k2 != GlobalKeyOf(key) by {
        if k2 == GlobalKeyOf(key) {
          GlobalKeyOfInjective(x.key, key);
        }
      }
      SetGlobalReads(s, k2, x.value);
    }
  }

  /** Content without a header line parses to a snapshot with no interfaces. */
  lemma NoHeaderNoInterfaces(d: string)
    requires d != [] && !HasHeader(ClassifyAll(Lines(d)))
    ensures Parse(Some(d)).Some? && Parse(Some(d)).value.interfaces == []
  {
    var c := ClassifyAll(Lines(d));
    CurrentSetIffHeaderSeen(c);
    assert Parse(Some(d)) == Some(Fold(c));
  }

  /** Non-empty content parses to one record per header line. */
  lemma ParsedRecordCount(data: Option<string>)
    ensures Parse(data).Some? ==> |Parse(data).value.interfaces| == |HeaderNames(ClassifyAll(Lines(data.value)))|
  {
    if Parse(data).Some? {
      var c := ClassifyAll(Lines(data.value));
      InterfacesFollowHeaders(c);
      assert Parse(data) == Some(Fold(c));
    }
  }

  // ---------------------------------------------------------------------
  // The source as written: a global `interfaces=...` line.
  // ---------------------------------------------------------------------

  /** What `status.interfaces` holds in the source: the list (its names), or the text a global line put there. */
  datatype InterfacesSlot = List(names: seq<string>) | Replaced(text: string)

  /**
   * The source stores every global key other than `timestamp` and
   * `check_interval` with `status[key] = value`, so a global line
   * `interfaces=...` replaces the list by a string; the next header then
   * calls `push` on that string, which throws (`None` here).  Only
   * `status.interfaces` is followed; the rest is as in `Fold`.
   */
  function FoldAsWritten(lines: seq<Line>): Option<InterfacesSlot> {
    if lines == [] then Some(List([]))
    else
      match FoldAsWritten(lines[..|lines| - 1])
      case None => None
      case Some(slot) =>
        match lines[|lines| - 1]
        case Header(name) => if slot.List? then Some(List(slot.names + [name])) else None
        case Assignment(key, value) =>
          if slot.List? && slot.names != [] then Some(slot)
          else if key == "interfaces" then Some(Replaced(value))
          else Some(slot)
        case _ => Some(slot)
  }

  /** Some line before the first header assigns `key`, so it goes to the globals. */
  predicate AssignsGlobally(lines: seq<Line>, key: string) {
    exists k :: 0 <= k < |lines| && lines[k].Assignment? && lines[k].key == key && !HasHeader(lines[..k])
  }

  /**
   * Without a global `interfaces` line the source's list is the one `Fold`
   * builds: one record per header.  An `interfaces=` line inside a section
   * goes to that section's record and is harmless.
   */
  lemma {:induction false} AsWrittenAgreesWithoutInterfacesKey(lines: seq<Line>)
    requires !AssignsGlobally(lines, "interfaces")
    ensures FoldAsWritten(lines) == Some(List(HeaderNames(lines)))
  {
    if lines != [] {
      var pre := lines[..|lines| - 1];
      assert !AssignsGlobally(pre, "interfaces") by {
        forall k | 0 <= k < |pre| ensures pre[k] == lines[k] && pre[..k] == lines[..k] { }
      }
      AsWrittenAgreesWithoutInterfacesKey(pre);
      var last := lines[|lines| - 1];
      if last.Assignment? && last.key == "interfaces" {
        assert HasHeader(pre) by {
          assert lines[..|lines| - 1] == pre;
        }
        CurrentSetIffHeaderSeen(pre);
        InterfacesFollowHeaders(pre);
      }
    }
  }

  /** `interfaces=x` followed by `[wg0]`: the source throws, the model keeps `x` as a global and opens `wg0`. */
  lemma InterfacesKeyBreaksHeaders()
    ensures FoldAsWritten([Assignment("interfaces", "x"), Header("wg0")]) == None
    ensures Fold([Assignment("interfaces", "x"), Header("wg0")]).interfaces == [NewInterface("wg0")]
    ensures GlobalField(Fold([Assignment("interfaces", "x"), Header("wg0")]), OtherGlobalKey("interfaces"))
            == Some(Text("x"))
  {
    var a := Assignment("interfaces", "x");
    assert [a, Header("wg0")][..1] == [a];
    assert [a][..0] == [];
    assert GlobalKeyOf("interfaces") == OtherGlobalKey("interfaces");
  }
}

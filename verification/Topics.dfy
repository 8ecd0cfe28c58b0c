/** Topics and texts exchanged with Home Assistant
    (src/mqtt/ha_mqtt_helpers.c): the printers, the command parser, and the
    language that the parser accepts. */
module Topics {
  import opened Text

  const TOPIC_MAX: nat := 128
  const PAYLOAD_MAX: nat := 700
  const ID_SIZE: nat := 32

  datatype Kind = InputSensor | OutputDevice

  function Word(kind: Kind): string {
    if kind.InputSensor? then "input" else "switch"
  }

  // ---- the device identifier ----

  function HexDigit(d: nat): (c: char)
    requires d < 16
    ensures IsHex(c)
  {
    "0123456789ABCDEF"[d]
  }

  predicate IsHex(c: char) {
    '0' <= c <= '9' || 'A' <= c <= 'F'
  }

  type Byte = x: nat | x < 256

  function Hex(bytes: seq<Byte>): (s: string)
    ensures |s| == 2 * |bytes|
    ensures forall i :: 0 <= i < |s| ==> IsHex(s[i])
  {
    if bytes == [] then "" else
    var last := bytes[|bytes| - 1];
    Hex(bytes[..|bytes| - 1]) + [HexDigit(last / 16), HexDigit(last % 16)]
  }

  lemma HexStep(bytes: seq<Byte>, i: nat)
    requires i < |bytes|
    ensures Hex(bytes[..i + 1]) == Hex(bytes[..i]) + [HexDigit(bytes[i] / 16), HexDigit(bytes[i] % 16)]
  {
    assert bytes[..i + 1][..i] == bytes[..i];
  }

  /** A hexadecimal digit of `%02X` stands for its number. */
  lemma DigitsDiffer(d: nat, e: nat)
    requires d < 16 && e < 16
    ensures HexDigit(d) == HexDigit(e) <==> d == e
    ensures HexDigit(d) as int == if d < 10 then '0' as int + d else 'A' as int + d - 10
  {
  }

  lemma SameByte(x: Byte, y: Byte)
    requires HexDigit(x / 16) == HexDigit(y / 16) && HexDigit(x % 16) == HexDigit(y % 16)
    ensures x == y
  {
    DigitsDiffer(x / 16, y / 16);
    DigitsDiffer(x % 16, y % 16);
  }

  lemma SameTail(p: string, q: string, a: char, b: char, c: char, d: char)
    requires p + [a, b] == q + [c, d]
    ensures p == q && a == c && b == d
  {
    var n := |p|;
    assert (p + [a, b])[..n] == p && (q + [c, d])[..n] == q;
    assert (p + [a, b])[n] == a && (p + [a, b])[n + 1] == b;
  }

  /** Different identifiers print differently. */
  lemma {:induction false} HexInjective(a: seq<Byte>, b: seq<Byte>)
    requires Hex(a) == Hex(b)
    ensures a == b
    decreases |a|
  {
    if a != [] {
      var m := |a| - 1;
      assert |b| == |a|;
      HexEnds(a, b);
      HexInjective(a[..m], b[..m]);
      assert a == a[..m] + [a[m]] && b == b[..m] + [b[m]];
    }
  }

  lemma HexEnds(a: seq<Byte>, b: seq<Byte>)
    requires |a| == |b| > 0 && Hex(a) == Hex(b)
    ensures Hex(a[..|a| - 1]) == Hex(b[..|b| - 1]) && a[|a| - 1] == b[|b| - 1]
  {
    var x, y := a[|a| - 1], b[|b| - 1];
    SameTail(Hex(a[..|a| - 1]), Hex(b[..|b| - 1]),
             HexDigit(x / 16), HexDigit(x % 16), HexDigit(y / 16), HexDigit(y % 16));
    SameByte(x, y);
  }

  /** The identifiers that `set_device_id` can leave. */
  predicate ValidId(id: string) {
    0 < |id| <= 30 && forall i :: 0 <= i < |id| ==> IsHex(id[i])
  }

  class DeviceId {
    const buf: array<char>

    constructor ()
      ensures fresh(buf) && buf.Length == ID_SIZE && buf[0] == 0 as char
    {
      buf := new char[ID_SIZE](_ => 0 as char);
    }

    /** `set_device_id`: the text and its terminator must fit the buffer. */
    method SetDeviceId(bytes: seq<Byte>) returns (rc: int)
      requires buf.Length == ID_SIZE
      modifies buf
      ensures rc == if bytes == [] then -22 else if 2 * |bytes| + 1 > ID_SIZE then -28 else 0
      ensures rc == 0 ==> buf[..2 * |bytes|] == Hex(bytes) && buf[2 * |bytes|] == 0 as char && ValidId(Hex(bytes))
      ensures rc != 0 ==> buf[..] == old(buf[..])
    {
      if bytes == [] {
        return -22;
      }
      if 2 * |bytes| + 1 > ID_SIZE {
        return -28;
      }
      for i := 0 to |bytes|
        invariant buf[..2 * i] == Hex(bytes[..i])
        invariant i > 0 ==> buf[2 * i] == 0 as char
      {
        HexStep(bytes, i);
        PrintByte(2 * i, bytes[i]);
        assert 2 * i + 2 == 2 * (i + 1);
      }
      assert bytes[..|bytes|] == bytes;
      return 0;
    }

    /** `sprintf` of one byte with its terminator. */
    method PrintByte(at: nat, b: Byte)
      requires at + 2 < buf.Length
      modifies buf
      ensures buf[..at + 2] == old(buf[..at]) + [HexDigit(b / 16), HexDigit(b % 16)]
      ensures buf[at + 2] == 0 as char
    {
      buf[at], buf[at + 1], buf[at + 2] := HexDigit(b / 16), HexDigit(b % 16), 0 as char;
    }
  }

  // ---- printers ----

  function DevicePart(id: string): string {
    "cedar_" + id
  }

  function ObjectName(kind: Kind, n: nat): string {
    Word(kind) + Decimal(n)
  }

  function StatusTopic(id: string, kind: Kind, n: nat): string {
    Snprintf(TOPIC_MAX, DevicePart(id) + "/" + ObjectName(kind, n) + "/state")
  }

  function CommandTopic(id: string, n: nat): string {
    Snprintf(TOPIC_MAX, DevicePart(id) + "/" + ObjectName(OutputDevice, n) + "/set")
  }

  function ConfigTopic(id: string, kind: Kind, n: nat): string {
    var component := if kind.InputSensor? then "binary_sensor" else "switch";
    Snprintf(TOPIC_MAX, "homeassistant/" + component + "/" + DevicePart(id) + "/" + ObjectName(kind, n) + "/config")
  }

  function StatusPayload(kind: Kind, n: nat, on: bool): string {
    Snprintf(PAYLOAD_MAX, "{\"" + ObjectName(kind, n) + "\" : \"" + (if on then "ON" else "OFF") + "\"}")
  }

  /** The fields of the discovery payload that name topics and keys. */
  function AnnouncedStateTopic(id: string, kind: Kind, n: nat): string {
    DevicePart(id) + "/" + Word(kind) + Decimal(n) + "/state"
  }

  function AnnouncedTemplate(kind: Kind, n: nat): string {
    "{{ value_json." + Word(kind) + Decimal(n) + " }}"
  }

  function AnnouncedCommandLine(id: string, n: nat): string {
    var digits := if n == 0 then "" else Snprintf(5, Decimal(n));
    Snprintf(TOPIC_MAX, "\"command_topic\" : \"" + DevicePart(id) + "/switch" + digits + "/set\",\n")
  }

  // ---- what the two sides agree on ----

  lemma NothingIsCut(id: string, kind: Kind, n: nat)
    requires ValidId(id) && n < 256
    ensures StatusTopic(id, kind, n) == DevicePart(id) + "/" + ObjectName(kind, n) + "/state"
    ensures CommandTopic(id, n) == DevicePart(id) + "/" + ObjectName(OutputDevice, n) + "/set"
    ensures StatusPayload(kind, n, true) == "{\"" + ObjectName(kind, n) + "\" : \"ON\"}"
    ensures StatusPayload(kind, n, false) == "{\"" + ObjectName(kind, n) + "\" : \"OFF\"}"
  {
    DecimalByte(n);
  }

  /** The texts on the wire: nothing is cut for any identifier and number. */
  lemma InputTexts(id: string, n: nat)
    requires ValidId(id) && n < 256
    ensures StatusTopic(id, InputSensor, n) == "cedar_" + id + "/" + ("input" + Decimal(n)) + "/state"
    ensures StatusPayload(InputSensor, n, true) == "{\"" + ("input" + Decimal(n)) + "\" : \"ON\"}"
    ensures StatusPayload(InputSensor, n, false) == "{\"" + ("input" + Decimal(n)) + "\" : \"OFF\"}"
  {
    NothingIsCut(id, InputSensor, n);
  }

  lemma RelayTexts(id: string, n: nat)
    requires ValidId(id) && n < 256
    ensures StatusTopic(id, OutputDevice, n) == "cedar_" + id + "/" + ("switch" + Decimal(n)) + "/state"
    ensures CommandTopic(id, n) == "cedar_" + id + "/" + ("switch" + Decimal(n)) + "/set"
    ensures StatusPayload(OutputDevice, n, true) == "{\"" + ("switch" + Decimal(n)) + "\" : \"ON\"}"
    ensures StatusPayload(OutputDevice, n, false) == "{\"" + ("switch" + Decimal(n)) + "\" : \"OFF\"}"
  {
    NothingIsCut(id, OutputDevice, n);
  }

  lemma DiscoveryTexts(id: string, n: nat)
    requires ValidId(id) && n < 256
    ensures ConfigTopic(id, InputSensor, n)
         == "homeassistant/" + "binary_sensor" + "/" + ("cedar_" + id) + "/" + ("input" + Decimal(n)) + "/config"
    ensures ConfigTopic(id, OutputDevice, n)
         == "homeassistant/" + "switch" + "/" + ("cedar_" + id) + "/" + ("switch" + Decimal(n)) + "/config"
  {
    DecimalByte(n);
  }

  lemma SameNames(k1: Kind, n1: nat, k2: Kind, n2: nat, tail: string)
    requires tail != "" && !IsDigit(tail[0])
    requires ObjectName(k1, n1) + tail == ObjectName(k2, n2) + tail
    ensures k1 == k2 && n1 == n2
  {
    var a, b := ObjectName(k1, n1), ObjectName(k2, n2);
    assert (a + tail)[0] == Word(k1)[0] && (b + tail)[0] == Word(k2)[0];
    assert |a| == |b|;
    assert a == (a + tail)[..|a|] && b == (b + tail)[..|b|];
    assert a[|Word(k1)|..] == Decimal(n1) && b[|Word(k2)|..] == Decimal(n2);
    DecimalInjective(n1, n2);
  }

  lemma DropFront(a: string, b: string, c: string)
    ensures (a + b + c)[|a|..] == b + c
  {
  }

  /** Distinct inputs and relays have distinct status topics. */
  lemma StatusTopicsDistinct(id: string, k1: Kind, n1: nat, k2: Kind, n2: nat)
    requires ValidId(id) && n1 < 256 && n2 < 256
    requires StatusTopic(id, k1, n1) == StatusTopic(id, k2, n2)
    ensures k1 == k2 && n1 == n2
  {
    NothingIsCut(id, k1, n1);
    NothingIsCut(id, k2, n2);
    DropFront(DevicePart(id) + "/", ObjectName(k1, n1), "/state");
    DropFront(DevicePart(id) + "/", ObjectName(k2, n2), "/state");
    SameNames(k1, n1, k2, n2, "/state");
  }

  /** Devices with different identifiers share no status topic. */
  lemma StatusTopicsTellDevicesApart(id1: string, k1: Kind, n1: nat, id2: string, k2: Kind, n2: nat)
    requires ValidId(id1) && ValidId(id2) && n1 < 256 && n2 < 256
    requires StatusTopic(id1, k1, n1) == StatusTopic(id2, k2, n2)
    ensures id1 == id2 && k1 == k2 && n1 == n2
  {
    TopicStartsWithDevice(id1, k1, n1);
    TopicStartsWithDevice(id2, k2, n2);
    var t := StatusTopic(id1, k1, n1);
    assert id1 == t[..|DevicePart(id1)|][6..] && id2 == t[..|DevicePart(id2)|][6..];
    StatusTopicsDistinct(id1, k1, n1, k2, n2);
  }

  lemma TopicStartsWithDevice(id: string, kind: Kind, n: nat)
    requires ValidId(id) && n < 256
    ensures DevicePart(id) <= StatusTopic(id, kind, n)
    ensures IndexOf(StatusTopic(id, kind, n), '/', 0) == |DevicePart(id)|
  {
    NothingIsCut(id, kind, n);
    NoSlash(id);
    var rest := ObjectName(kind, n) + "/state";
    IndexOfPiece("", DevicePart(id), '/', rest);
    assert StatusTopic(id, kind, n) == "" + DevicePart(id) + ['/'] + rest;
  }

  /** The discovery topics of different objects differ. */
  lemma ConfigTopicsDistinct(id: string, k1: Kind, n1: nat, k2: Kind, n2: nat)
    requires ValidId(id) && n1 < 256 && n2 < 256
    requires ConfigTopic(id, k1, n1) == ConfigTopic(id, k2, n2)
    ensures k1 == k2 && n1 == n2
  {
    ConfigIsWhole(id, k1, n1);
    ConfigIsWhole(id, k2, n2);
    assert ConfigTopic(id, k1, n1)[14] == (if k1.InputSensor? then 'b' else 's');
    assert ConfigTopic(id, k2, n2)[14] == (if k2.InputSensor? then 'b' else 's');
    DropFront(ConfigFront(id, k1), ObjectName(k1, n1), "/config");
    DropFront(ConfigFront(id, k2), ObjectName(k2, n2), "/config");
    SameNames(k1, n1, k2, n2, "/config");
  }

  function ConfigFront(id: string, kind: Kind): string {
    "homeassistant/" + (if kind.InputSensor? then "binary_sensor" else "switch") + "/" + DevicePart(id) + "/"
  }

  lemma ConfigIsWhole(id: string, kind: Kind, n: nat)
    requires ValidId(id) && n < 256
    ensures ConfigTopic(id, kind, n) == ConfigFront(id, kind) + ObjectName(kind, n) + "/config"
  {
    DecimalByte(n);
  }

  /** No discovery topic is a status topic. */
  lemma ConfigIsNotStatus(id: string, k1: Kind, n1: nat, k2: Kind, n2: nat)
    ensures ConfigTopic(id, k1, n1) != StatusTopic(id, k2, n2)
  {
    assert ConfigTopic(id, k1, n1)[0] == 'h' && StatusTopic(id, k2, n2)[0] == 'c';
  }

  /** The key and value of a status payload, as a JSON reader sees them. */
  function ReadStatus(payload: string): Option<(string, string)> {
    if |payload| < 2 || payload[..2] != "{\"" then None else
    var i := IndexOf(payload, '"', 2);
    if |payload| < i + 5 || payload[i..i + 5] != "\" : \"" then None else
    var j := IndexOf(payload, '"', i + 5);
    if payload[j..] == "\"}" then Some((payload[2..i], payload[i + 5..j])) else None
  }

  /** The key that a value template selects. */
  function TemplateKey(template: string): Option<string> {
    var head, tail := "{{ value_json.", " }}";
    if |template| >= |head| + |tail| && template[..|head|] == head && template[|template| - |tail|..] == tail then
      Some(template[|head|..|template| - |tail|])
    else None
  }

  /** What Home Assistant shows for a payload under an announced template. */
  function Shown(template: string, payload: string): Option<string> {
    var key, status := TemplateKey(template), ReadStatus(payload);
    if key.Some? && status.Some? && key.value == status.value.0 then Some(status.value.1) else None
  }

  lemma ReadsBack(name: string, state: string)
    requires '"' !in name && '"' !in state
    ensures ReadStatus("{\"" + name + "\" : \"" + state + "\"}") == Some((name, state))
  {
    var p := "{\"" + name + "\" : \"" + state + "\"}";
    IndexOfPiece("{\"", name, '"', " : \"" + state + "\"}");
    assert p == "{\"" + name + ['"'] + (" : \"" + state + "\"}");
    var before := "{\"" + name + "\" : \"";
    IndexOfPiece(before, state, '"', "}");
    assert p == before + state + ['"'] + "}";
    var i := 2 + |name|;
    assert p[2..i] == name && p[i..i + 5] == "\" : \"";
    assert p[i + 5..i + 5 + |state|] == state && p[i + 5 + |state|..] == "\"}";
  }

  lemma StatusReads(kind: Kind, n: nat, on: bool)
    requires n < 256
    ensures ReadStatus(StatusPayload(kind, n, on)) == Some((ObjectName(kind, n), if on then "ON" else "OFF"))
  {
    NothingIsCut("0", kind, n);
    assert forall c :: c in Decimal(n) ==> IsDigit(c);
    ReadsBack(ObjectName(kind, n), if on then "ON" else "OFF");
  }

  lemma TemplateReads(kind: Kind, n: nat)
    ensures TemplateKey(AnnouncedTemplate(kind, n)) == Some(ObjectName(kind, n))
  {
    var head, name, tail := "{{ value_json.", ObjectName(kind, n), " }}";
    var t := head + name + tail;
    assert AnnouncedTemplate(kind, n) == t;
    assert t[..|head|] == head && t[|t| - |tail|..] == tail && t[|head|..|t| - |tail|] == name;
  }

  /** The template announced for one object shows exactly that object's state. */
  lemma TemplateShowsItsObject(k1: Kind, n1: nat, k2: Kind, n2: nat, on: bool)
    requires n1 < 256 && n2 < 256
    ensures Shown(AnnouncedTemplate(k1, n1), StatusPayload(k2, n2, on)) ==
            if k1 == k2 && n1 == n2 then Some(if on then "ON" else "OFF") else None
  {
    StatusReads(k2, n2, on);
    TemplateReads(k1, n1);
    if ObjectName(k1, n1) == ObjectName(k2, n2) {
      SameNames(k1, n1, k2, n2, "/");
    }
  }

  /** Discovery announces the topics in use, with one exception: the command
      topic of number 0 is announced without its number. */
  lemma AnnouncedTopicsAreUsed(id: string, kind: Kind, n: nat)
    requires ValidId(id) && n < 256
    ensures AnnouncedStateTopic(id, kind, n) == StatusTopic(id, kind, n)
    ensures AnnouncedCommandLine(id, n) == "\"command_topic\" : \"" + CommandTopic(id, n) + "\",\n" <==> n != 0
  {
    NothingIsCut(id, kind, n);
    assert AnnouncedStateTopic(id, kind, n) == DevicePart(id) + "/" + ObjectName(kind, n) + "/state";
    CommandLineReads(id, n);
  }

  lemma CommandLineReads(id: string, n: nat)
    requires ValidId(id) && n < 256
    ensures AnnouncedCommandLine(id, n) == "\"command_topic\" : \"" + CommandTopic(id, n) + "\",\n" <==> n != 0
  {
    NothingIsCut(id, OutputDevice, n);
    DecimalByte(n);
    var start, digits := "\"command_topic\" : \"", if n == 0 then "" else Decimal(n);
    var line := AnnouncedCommandLine(id, n);
    assert |line| == |start| + 6 + |id| + 7 + |digits| + 7;
    var wanted := start + CommandTopic(id, n) + "\",\n";
    assert |wanted| == |start| + 6 + |id| + 7 + |Decimal(n)| + 7;
    if n != 0 {
      assert line == start + (DevicePart(id) + "/" + ObjectName(OutputDevice, n) + "/set") + "\",\n";
    }
  }

  // ---- the command parser ----

  predicate IsLetter(c: char) {
    'a' <= c <= 'z' || 'A' <= c <= 'Z'
  }

  predicate IsAlnum(c: char) {
    IsLetter(c) || IsDigit(c)
  }

  /** `%max[...]` of sscanf: the length of the longest run, at most `max`. */
  function Span(s: string, max: nat, ok: char -> bool): (n: nat)
    ensures n <= |s| && n <= max
    ensures forall k :: 0 <= k < n ==> ok(s[k])
    ensures n < |s| && n < max ==> !ok(s[n])
    decreases max
  {
    if max == 0 || s == "" || !ok(s[0]) then 0 else 1 + Span(s[1..], max - 1, ok)
  }

  lemma SpanOfRun(run: string, rest: string, max: nat, ok: char -> bool)
    requires |run| <= max && forall k :: 0 <= k < |run| ==> ok(run[k])
    requires |run| == max || rest == "" || !ok(rest[0])
    ensures Span(run + rest, max, ok) == |run|
    ensures (run + rest)[..|run|] == run && (run + rest)[|run|..] == rest
  {
  }

  datatype Command = Command(kind: Kind, number: Byte, on: bool)

  function SensorType(word: string): Option<Kind> {
    if word == "input" then Some(InputSensor)
    else if word == "switch" then Some(OutputDevice)
    else None
  }

  function SensorState(word: string): Option<bool> {
    if SameNoCase(word, "on") || word == "1" then Some(true)
    else if SameNoCase(word, "off") || word == "0" then Some(false)
    else None
  }

  /** The two fields that sscanf takes from the topic. */
  function ScanTopic(topic: string): (r: Option<(string, string)>)
    ensures r.Some? ==> AllDigits(r.value.1)
  {
    var slash := IndexOf(topic, '/', 0);
    if slash == 0 || slash == |topic| then None else ScanObject(topic[slash + 1..])
  }

  function ScanObject(text: string): (r: Option<(string, string)>)
    ensures r.Some? ==> AllDigits(r.value.1)
  {
    var letters := Span(text, 31, IsLetter);
    var rest := text[letters..];
    var digits := Span(rest, 7, IsDigit);
    if letters == 0 || digits == 0 || rest[digits..] != "/set" then None
    else Some((text[..letters], rest[..digits]))
  }

  function ParseIncoming(topic: string, payload: string): Option<Command> {
    Interpret(ScanTopic(topic), payload[..Span(payload, 7, IsAlnum)])
  }

  /** The checks after the two scans. */
  function Interpret(fields: Option<(string, string)>, word: string): Option<Command>
    requires fields.Some? ==> AllDigits(fields.value.1)
  {
    if fields.None? || word == "" then None else
    var kind, state := SensorType(fields.value.0), SensorState(word);
    if kind.None? || state.None? then None
    else Some(Command(kind.value, DecimalValue(fields.value.1) % 256, state.value))
  }

  ghost predicate TopicForm(topic: string, head: string, kind: Kind, digits: string) {
    && head != "" && '/' !in head
    && 1 <= |digits| <= 7 && AllDigits(digits)
    && topic == head + "/" + (Word(kind) + (digits + "/set"))
  }

  /** "on" in any case or "1"; "off" in any case or "0". */
  ghost predicate StateWord(word: string, on: bool) {
    if on then
      word == "1" || (|word| == 2 && word[0] in "oO" && word[1] in "nN")
    else
      word == "0" || (|word| == 3 && word[0] in "oO" && word[1] in "fF" && word[2] in "fF")
  }

  lemma StateWordIff(word: string, on: bool)
    ensures SensorState(word) == Some(on) <==> StateWord(word, on)
  {
    SameNoCaseIff(word, "on");
    SameNoCaseIff(word, "off");
  }

  lemma StateWordIsAlnum(word: string, on: bool)
    requires StateWord(word, on)
    ensures 1 <= |word| <= 3 && forall k :: 0 <= k < |word| ==> IsAlnum(word[k])
  {
  }

  /** A payload beginning with a state word that no letter or digit continues. */
  ghost predicate PayloadForm(payload: string, word: string, on: bool) {
    && word <= payload && (|word| < |payload| ==> !IsAlnum(payload[|word|]))
    && StateWord(word, on)
  }

  lemma ScanForm(topic: string, head: string, kind: Kind, digits: string)
    requires TopicForm(topic, head, kind, digits)
    ensures ScanTopic(topic) == Some((Word(kind), digits))
  {
    var text := Word(kind) + (digits + "/set");
    IndexOfPiece("", head, '/', text);
    assert topic == "" + head + ['/'] + text;
    assert topic[|head| + 1..] == text;
    ObjectForm(kind, digits);
  }

  lemma ObjectForm(kind: Kind, digits: string)
    requires 1 <= |digits| <= 7 && AllDigits(digits)
    ensures ScanObject(Word(kind) + (digits + "/set")) == Some((Word(kind), digits))
  {
    assert forall k :: 0 <= k < |Word(kind)| ==> IsLetter(Word(kind)[k]);
    assert (digits + "/set")[0] == digits[0];
    SpanOfRun(Word(kind), digits + "/set", 31, IsLetter);
    SpanOfRun(digits, "/set", 7, IsDigit);
  }

  lemma FormScanned(topic: string, kind: Kind) returns (head: string)
    requires ScanTopic(topic).Some? && SensorType(ScanTopic(topic).value.0) == Some(kind)
    ensures TopicForm(topic, head, kind, ScanTopic(topic).value.1)
  {
    var slash := IndexOf(topic, '/', 0);
    CutAt(topic, slash);
    head := topic[..slash];
    FormFromObject(topic, head, topic[slash + 1..], kind);
  }

  lemma FormFromObject(topic: string, head: string, text: string, kind: Kind)
    requires head != "" && '/' !in head && topic == head + "/" + text
    requires ScanObject(text).Some? && SensorType(ScanObject(text).value.0) == Some(kind)
    ensures TopicForm(topic, head, kind, ScanObject(text).value.1)
  {
    ObjectScanned(text, kind);
  }

  lemma CutAt(s: string, i: nat)
    requires i < |s| && i == IndexOf(s, '/', 0)
    ensures s == s[..i] + "/" + s[i + 1..] && '/' !in s[..i]
  {
  }

  lemma ObjectScanned(text: string, kind: Kind)
    requires ScanObject(text).Some? && SensorType(ScanObject(text).value.0) == Some(kind)
    ensures var digits := ScanObject(text).value.1;
      1 <= |digits| <= 7 && AllDigits(digits) && text == Word(kind) + (digits + "/set")
  {
    var letters := Span(text, 31, IsLetter);
    Glue(text, letters, Span(text[letters..], 7, IsDigit));
    WordOfType(text[..letters], kind);
  }

  lemma WordOfType(word: string, kind: Kind)
    requires SensorType(word) == Some(kind)
    ensures word == Word(kind)
  {
  }

  lemma Glue(text: string, i: nat, j: nat)
    requires i <= |text| && i + j <= |text|
    ensures text == text[..i] + (text[i..][..j] + text[i..][j..])
  {
  }

  lemma ScanPayload(payload: string, word: string, on: bool)
    requires PayloadForm(payload, word, on)
    ensures Span(payload, 7, IsAlnum) == |word| && payload[..|word|] == word && word != ""
  {
    StateWordIsAlnum(word, on);
    SpanOfRun(word, payload[|word|..], 7, IsAlnum);
    assert word + payload[|word|..] == payload;
  }

  lemma PayloadScanned(payload: string, on: bool)
    requires SensorState(payload[..Span(payload, 7, IsAlnum)]) == Some(on)
    ensures PayloadForm(payload, payload[..Span(payload, 7, IsAlnum)], on)
  {
    StateWordIff(payload[..Span(payload, 7, IsAlnum)], on);
    StateWordIsAlnum(payload[..Span(payload, 7, IsAlnum)], on);
  }

  lemma WellFormedIsAccepted(topic: string, payload: string, c: Command, head: string, digits: string, word: string)
    requires TopicForm(topic, head, c.kind, digits) && PayloadForm(payload, word, c.on)
    requires c.number == DecimalValue(digits) % 256
    ensures ParseIncoming(topic, payload) == Some(c)
  {
    ScanForm(topic, head, c.kind, digits);
    ScanPayload(payload, word, c.on);
    StateWordIff(word, c.on);
    InterpretWords(c.kind, digits, word, c.on);
  }

  lemma InterpretWords(kind: Kind, digits: string, word: string, on: bool)
    requires AllDigits(digits) && SensorState(word) == Some(on)
    ensures Interpret(Some((Word(kind), digits)), word) == Some(Command(kind, DecimalValue(digits) % 256, on))
  {
  }

  lemma AcceptedIsWellFormed(topic: string, payload: string, c: Command)
      returns (head: string, digits: string, word: string)
    requires ParseIncoming(topic, payload) == Some(c)
    ensures TopicForm(topic, head, c.kind, digits) && PayloadForm(payload, word, c.on)
    ensures c.number == DecimalValue(digits) % 256
  {
    head := FormScanned(topic, c.kind);
    digits, word := ScanTopic(topic).value.1, payload[..Span(payload, 7, IsAlnum)];
    PayloadScanned(payload, c.on);
  }

  /** The exact language of `parse_incoming_message`, and what it yields. */
  lemma ParserAcceptsExactly(topic: string, payload: string, c: Command)
    ensures ParseIncoming(topic, payload) == Some(c) <==>
      exists head, digits, word :: TopicForm(topic, head, c.kind, digits)
        && PayloadForm(payload, word, c.on) && c.number == DecimalValue(digits) % 256
  {
    if ParseIncoming(topic, payload) == Some(c) {
      var head, digits, word := AcceptedIsWellFormed(topic, payload, c);
    }
    forall head, digits, word | TopicForm(topic, head, c.kind, digits)
        && PayloadForm(payload, word, c.on) && c.number == DecimalValue(digits) % 256
      ensures ParseIncoming(topic, payload) == Some(c)
    {
      WellFormedIsAccepted(topic, payload, c, head, digits, word);
    }
  }

  lemma NoSlash(id: string)
    requires ValidId(id)
    ensures '/' !in DevicePart(id)
  {
  }

  /** Parsing the topic printed for a relay gives back that relay. */
  lemma CommandRoundTrip(id: string, c: Command, topic: string, payload: string, word: string)
    requires ValidId(id) && c.kind.OutputDevice? && topic == CommandTopic(id, c.number)
    requires PayloadForm(payload, word, c.on)
    ensures ParseIncoming(topic, payload) == Some(c)
  {
    var head, digits := CommandTopicForm(id, c.number);
    WellFormedIsAccepted(topic, payload, c, head, digits, word);
  }

  lemma CommandTopicForm(id: string, n: nat) returns (head: string, digits: string)
    requires ValidId(id) && n < 256
    ensures TopicForm(CommandTopic(id, n), head, OutputDevice, digits) && DecimalValue(digits) == n
  {
    head, digits := DevicePart(id), Decimal(n);
    NothingIsCut(id, OutputDevice, n);
    DecimalByte(n);
    DecimalRoundTrip(n);
    NoSlash(id);
    Reassociate(DevicePart(id), Word(OutputDevice), Decimal(n), "/set");
  }

  lemma Reassociate(a: string, b: string, c: string, d: string)
    ensures a + "/" + (b + c) + d == a + "/" + (b + (c + d))
  {
  }
}

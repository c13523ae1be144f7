/** Telemetry: what each field of the OSD state is worth after any downlink, and which
    bytes of a message it is read from. */
module MavlinkTelemetry {
  import opened Bytes
  import opened MavlinkFramers
  import opened MavlinkStreams

  const HEARTBEAT := 0
  const SYS_STATUS := 1
  const GPS_RAW_INT := 24
  const ATTITUDE := 30
  const GLOBAL_POSITION_INT := 33
  const VFR_HUD := 74
  const BATTERY_STATUS := 147

  /** How many payload bytes a message of this kind must have to be interpreted. */
  function Need(msgid: nat): Option<nat> {
    if msgid == HEARTBEAT then Some(8)
    else if msgid == SYS_STATUS then Some(31)
    else if msgid == ATTITUDE then Some(16)
    else if msgid == GLOBAL_POSITION_INT then Some(28)
    else if msgid == GPS_RAW_INT then Some(30)
    else if msgid == VFR_HUD then Some(20)
    else if msgid == BATTERY_STATUS then Some(36)
    else None
  }

  function MessageHeader(m: Message): nat {
    if m.v2 then V2_HEADER_SIZE else V1_HEADER_SIZE
  }

  /** The bytes that are interpreted, if the message is long enough for its kind. The
      length counts everything behind the header but two bytes. */
  function Interpreted(m: Message): (r: Option<seq<byte>>)
    ensures r.Some? ==> Need(m.msgId).Some? && |r.value| == Need(m.msgId).value
  {
    var header := MessageHeader(m);
    if |m.data| < header + CHECKSUM_SIZE || Need(m.msgId).None? then None else
    var need := Need(m.msgId).value;
    if |m.data| - header - CHECKSUM_SIZE < need then None else Some(m.data[header..header + need])
  }

  // Little-endian numbers.

  function U16(b: seq<byte>, at: nat): int
    requires at + 2 <= |b|
  {
    b[at] as int + 256 * b[at + 1] as int
  }

  function U32(b: seq<byte>, at: nat): int
    requires at + 4 <= |b|
  {
    U16(b, at) + 0x1_0000 * U16(b, at + 2)
  }

  /** Two's complement. */
  function Signed(x: int, bits: int): int {
    if x >= bits / 2 then x - bits else x
  }

  function I16(b: seq<byte>, at: nat): int
    requires at + 2 <= |b|
  {
    Signed(U16(b, at), 0x1_0000)
  }

  function I32(b: seq<byte>, at: nat): int
    requires at + 4 <= |b|
  {
    Signed(U32(b, at), 0x1_0000_0000)
  }

  function I8(x: byte): int {
    Signed(x, 256)
  }

  /** MAV_MODE_FLAG_SAFETY_ARMED, the top bit of the base mode. */
  predicate Armed(baseMode: int) {
    baseMode / 128 % 2 == 1
  }

  /** Numbers as they stand on the wire: floats by their 32 bits, voltages in mV,
      currents in cA, headings in hundredths of a degree. */
  datatype Telemetry = Telemetry(
    valid: bool, armed: bool, baseMode: int, customMode: int, systemStatus: int, mavType: int,
    roll: int, pitch: int, yaw: int, latitude: int, longitude: int, altitude: int, relativeAltitude: int,
    heading: int, satellites: int, gpsFix: int, groundSpeed: int, airSpeed: int, climb: int, throttle: int,
    voltage: int, current: int, remaining: int)

  const NO_TELEMETRY := Telemetry(
    false, false, 0, 0, 0, 0, 0, 0, 0, 0, 0, 0, 0, 0, 0, 0, 0, 0, 0, 0, 0, 0, -1)

  datatype Field =
    | BaseMode | CustomMode | SystemStatus | MavType | Roll | Pitch | Yaw
    | Latitude | Longitude | Altitude | RelativeAltitude | Heading | Satellites | GpsFix
    | GroundSpeed | AirSpeed | Climb | Throttle | Voltage | Current | Remaining

  function Value(t: Telemetry, f: Field): int {
    match f
    case BaseMode => t.baseMode
    case CustomMode => t.customMode
    case SystemStatus => t.systemStatus
    case MavType => t.mavType
    case Roll => t.roll
    case Pitch => t.pitch
    case Yaw => t.yaw
    case Latitude => t.latitude
    case Longitude => t.longitude
    case Altitude => t.altitude
    case RelativeAltitude => t.relativeAltitude
    case Heading => t.heading
    case Satellites => t.satellites
    case GpsFix => t.gpsFix
    case GroundSpeed => t.groundSpeed
    case AirSpeed => t.airSpeed
    case Climb => t.climb
    case Throttle => t.throttle
    case Voltage => t.voltage
    case Current => t.current
    case Remaining => t.remaining
  }

  /** Where a field stands in a payload. Some sixteen-bit fields say "unknown" with all ones. */
  datatype Place = Place(at: nat, width: nat, signed: bool, mayBeUnknown: bool)

  function Plain(at: nat, width: nat): Place {
    Place(at, width, false, false)
  }

  function PlaceOf(f: Field, msgid: nat): (p: Option<Place>)
    ensures p.Some? ==> Need(msgid).Some? && p.value.at + p.value.width <= Need(msgid).value
    ensures p.Some? ==> p.value.width in {1, 2, 4}
    ensures p.Some? && p.value.mayBeUnknown ==> p.value.width == 2
  {
    match f
    case BaseMode => if msgid == HEARTBEAT then Some(Plain(6, 1)) else None
    case CustomMode => if msgid == HEARTBEAT then Some(Plain(0, 4)) else None
    case SystemStatus => if msgid == HEARTBEAT then Some(Plain(7, 1)) else None
    case MavType => if msgid == HEARTBEAT then Some(Plain(4, 1)) else None
    case Roll => if msgid == ATTITUDE then Some(Plain(4, 4)) else None
    case Pitch => if msgid == ATTITUDE then Some(Plain(8, 4)) else None
    case Yaw => if msgid == ATTITUDE then Some(Plain(12, 4)) else None
    case Latitude => if msgid == GLOBAL_POSITION_INT then Some(Place(4, 4, true, false)) else None
    case Longitude => if msgid == GLOBAL_POSITION_INT then Some(Place(8, 4, true, false)) else None
    case Altitude => if msgid == GLOBAL_POSITION_INT then Some(Place(12, 4, true, false)) else None
    case RelativeAltitude => if msgid == GLOBAL_POSITION_INT then Some(Place(16, 4, true, false)) else None
    case Heading => if msgid == GLOBAL_POSITION_INT then Some(Place(26, 2, false, true)) else None
    case Satellites => if msgid == GPS_RAW_INT then Some(Plain(29, 1)) else None
    case GpsFix => if msgid == GPS_RAW_INT then Some(Plain(28, 1)) else None
    case GroundSpeed => if msgid == VFR_HUD then Some(Plain(4, 4)) else None
    case AirSpeed => if msgid == VFR_HUD then Some(Plain(0, 4)) else None
    case Climb => if msgid == VFR_HUD then Some(Plain(12, 4)) else None
    case Throttle => if msgid == VFR_HUD then Some(Plain(18, 2)) else None
    case Voltage =>
      if msgid == SYS_STATUS then Some(Plain(14, 2))
      else if msgid == BATTERY_STATUS then Some(Place(5, 2, false, true)) else None
    case Current =>
      if msgid == SYS_STATUS then Some(Place(16, 2, true, false))
      else if msgid == BATTERY_STATUS then Some(Place(25, 2, true, false)) else None
    case Remaining =>
      if msgid == SYS_STATUS then Some(Place(30, 1, true, false))
      else if msgid == BATTERY_STATUS then Some(Place(35, 1, true, false)) else None
  }

  /** Little-endian bytes of any width. */
  function LittleEndian(b: seq<byte>): nat {
    if b == [] then 0 else b[0] + 256 * LittleEndian(b[1..])
  }

  function Range(width: nat): nat {
    if width == 1 then 0x100 else if width == 2 then 0x1_0000 else 0x1_0000_0000
  }

  /** What bytes at a place say. */
  function Meaning(p: Place, bytes: seq<byte>): Option<int> {
    NumberMeans(p, LittleEndian(bytes))
  }

  function NumberMeans(p: Place, n: nat): Option<int> {
    if p.mayBeUnknown && n == 0xffff then None else Some(if p.signed then Signed(n, Range(p.width)) else n)
  }

  function FieldOf(p: Place, bytes: seq<byte>): seq<byte>
    requires p.at + p.width <= |bytes|
  {
    bytes[p.at..p.at + p.width]
  }

  /** What a payload of one kind says about a field. */
  function Reading(f: Field, msgid: nat, b: seq<byte>): Option<int>
    requires Need(msgid) == Some(|b|)
  {
    var place := PlaceOf(f, msgid);
    if place.None? then None else Meaning(place.value, FieldOf(place.value, b))
  }

  /** Field by field: what a message writes to it, if anything. */
  function Written(f: Field, m: Message): Option<int> {
    if Interpreted(m).None? then None else Reading(f, m.msgId, Interpreted(m).value)
  }

  /** Numbers of one, two and four bytes. */
  lemma LittleEndianWidths(b: seq<byte>, at: nat)
    ensures at + 1 <= |b| ==> LittleEndian(b[at..at + 1]) == b[at]
    ensures at + 2 <= |b| ==> LittleEndian(b[at..at + 2]) == U16(b, at)
    ensures at + 4 <= |b| ==> LittleEndian(b[at..at + 4]) == U32(b, at)
  {
    if at + 1 <= |b| { One(b[at..at + 1]); }
    if at + 2 <= |b| { Two(b[at..at + 2]); }
    if at + 4 <= |b| {
      var c := b[at..at + 4];
      Two(c[2..]);
      assert c[1..][1..] == c[2..];
      assert LittleEndian(c) == c[0] + 256 * LittleEndian(c[1..]);
      assert LittleEndian(c[1..]) == c[1] + 256 * LittleEndian(c[2..]);
      assert c[2..] == [b[at + 2], b[at + 3]];
    }
  }

  lemma One(c: seq<byte>)
    requires |c| == 1
    ensures LittleEndian(c) == c[0]
  {
    assert c[1..] == [];
  }

  lemma Two(c: seq<byte>)
    requires |c| == 2
    ensures LittleEndian(c) == U16(c, 0)
  {
    One(c[1..]);
  }

  function Overwritten(before: int, w: Option<int>): int {
    if w.Some? then w.value else before
  }

  /** Every field after a message: what the message writes to it, or else as before. */
  ghost predicate Consumed(before: Telemetry, m: Message, after: Telemetry) {
    && (forall f :: Value(after, f) == Overwritten(Value(before, f), Written(f, m)))
    && after.armed == (if Written(BaseMode, m).Some? then Armed(after.baseMode) else before.armed)
    && after.valid == (before.valid || |m.data| >= MessageHeader(m) + CHECKSUM_SIZE)
  }

  function Known(n: int): Option<int> {
    if n != 0xffff then Some(n) else None
  }

  /** The bytes at each kind of place, read directly. */
  lemma MeaningOf1(b: seq<byte>, at: nat)
    requires at + 1 <= |b|
    ensures Meaning(Plain(at, 1), b[at..at + 1]) == Some(b[at])
    ensures Meaning(Place(at, 1, true, false), b[at..at + 1]) == Some(I8(b[at]))
  {
    hide LittleEndian, U16, U32, Signed;
    LittleEndianWidths(b, at);
  }

  lemma MeaningOf2(b: seq<byte>, at: nat)
    requires at + 2 <= |b|
    ensures Meaning(Plain(at, 2), b[at..at + 2]) == Some(U16(b, at))
    ensures Meaning(Place(at, 2, true, false), b[at..at + 2]) == Some(I16(b, at))
    ensures Meaning(Place(at, 2, false, true), b[at..at + 2]) == Known(U16(b, at))
  {
    hide LittleEndian, U16, U32, Signed;
    LittleEndianWidths(b, at);
  }

  lemma MeaningOf4(b: seq<byte>, at: nat)
    requires at + 4 <= |b|
    ensures Meaning(Plain(at, 4), b[at..at + 4]) == Some(U32(b, at))
    ensures Meaning(Place(at, 4, true, false), b[at..at + 4]) == Some(I32(b, at))
  {
    hide LittleEndian, U16, U32, Signed;
    LittleEndianWidths(b, at);
  }

  /** Every field after a payload of this kind is read. */
  ghost predicate Reads(before: Telemetry, msgid: nat, b: seq<byte>, after: Telemetry)
    requires Need(msgid) == Some(|b|)
  {
    forall f :: Value(after, f) == Overwritten(Value(before, f), Reading(f, msgid, b))
  }

  // Kind by kind: the assignments that read a payload.

  lemma ReadsHeartbeat(t: Telemetry, b: seq<byte>)
    requires |b| == 8
    ensures Reads(t, HEARTBEAT, b, t.(customMode := U32(b, 0), mavType := b[4], baseMode := b[6],
                                      systemStatus := b[7], armed := Armed(b[6])))
  {
    hide Meaning, U16, U32, I8, I16, I32;
    MeaningOf4(b, 0);
    MeaningOf1(b, 4);
    MeaningOf1(b, 6);
    MeaningOf1(b, 7);
  }

  lemma ReadsSysStatus(t: Telemetry, b: seq<byte>)
    requires |b| == 31
    ensures Reads(t, SYS_STATUS, b, t.(voltage := U16(b, 14), current := I16(b, 16), remaining := I8(b[30])))
  {
    hide Meaning, U16, U32, I8, I16, I32;
    MeaningOf2(b, 14);
    MeaningOf2(b, 16);
    MeaningOf1(b, 30);
  }

  lemma ReadsAttitude(t: Telemetry, b: seq<byte>)
    requires |b| == 16
    ensures Reads(t, ATTITUDE, b, t.(roll := U32(b, 4), pitch := U32(b, 8), yaw := U32(b, 12)))
  {
    hide Meaning, U16, U32, I8, I16, I32;
    MeaningOf4(b, 4);
    MeaningOf4(b, 8);
    MeaningOf4(b, 12);
  }

  lemma ReadsPosition(t: Telemetry, b: seq<byte>)
    requires |b| == 28
    ensures var u := t.(latitude := I32(b, 4), longitude := I32(b, 8), altitude := I32(b, 12),
                        relativeAltitude := I32(b, 16));
            Reads(t, GLOBAL_POSITION_INT, b, if U16(b, 26) != 0xffff then u.(heading := U16(b, 26)) else u)
  {
    hide Meaning, U16, U32, I8, I16, I32;
    MeaningOf4(b, 4);
    MeaningOf4(b, 8);
    MeaningOf4(b, 12);
    MeaningOf4(b, 16);
    MeaningOf2(b, 26);
  }

  lemma ReadsGps(t: Telemetry, b: seq<byte>)
    requires |b| == 30
    ensures Reads(t, GPS_RAW_INT, b, t.(gpsFix := b[28], satellites := b[29]))
  {
    hide Meaning, U16, U32, I8, I16, I32;
    MeaningOf1(b, 28);
    MeaningOf1(b, 29);
  }

  lemma ReadsHud(t: Telemetry, b: seq<byte>)
    requires |b| == 20
    ensures Reads(t, VFR_HUD, b, t.(airSpeed := U32(b, 0), groundSpeed := U32(b, 4), climb := U32(b, 12),
                                    throttle := U16(b, 18)))
  {
    hide Meaning, U16, U32, I8, I16, I32;
    MeaningOf4(b, 0);
    MeaningOf4(b, 4);
    MeaningOf4(b, 12);
    MeaningOf2(b, 18);
  }

  lemma ReadsBattery(t: Telemetry, b: seq<byte>)
    requires |b| == 36
    ensures var u := if U16(b, 5) != 0xffff then t.(voltage := U16(b, 5)) else t;
            Reads(t, BATTERY_STATUS, b, u.(current := I16(b, 25), remaining := I8(b[35])))
  {
    hide Meaning, U16, U32, I8, I16, I32;
    MeaningOf2(b, 5);
    MeaningOf2(b, 25);
    MeaningOf1(b, 35);
  }

  class TelemetryDecoder {
    var state: Telemetry

    constructor ()
      ensures state == NO_TELEMETRY
    {
      state := NO_TELEMETRY;
    }

    method Consume(m: Message)
      modifies this
      ensures Consumed(old(state), m, state)
    {
      hide U16, U32, I16, I32, I8;
      var header := MessageHeader(m);
      if |m.data| < header + CHECKSUM_SIZE { return; }
      var length := |m.data| - header - CHECKSUM_SIZE;
      state := state.(valid := true);
      if Need(m.msgId).None? || length < Need(m.msgId).value { return; }
      var b := m.data[header..header + Need(m.msgId).value];
      Interpret(m, b);
    }

    /** The switch over the message kinds, for a payload that is long enough. */
    method Interpret(m: Message, b: seq<byte>)
      requires Need(m.msgId) == Some(|b|)
      modifies this
      ensures Reads(old(state), m.msgId, b, state)
      ensures state.valid == old(state).valid
      ensures state.armed == if m.msgId == HEARTBEAT then Armed(state.baseMode) else old(state).armed
    {
      hide U16, U32, I16, I32, I8, Reads;
      if m.msgId == HEARTBEAT {
        ReadsHeartbeat(state, b);
        state := state.(customMode := U32(b, 0), mavType := b[4], baseMode := b[6], systemStatus := b[7]);
        state := state.(armed := Armed(state.baseMode));
      } else if m.msgId == SYS_STATUS {
        ReadsSysStatus(state, b);
        state := state.(voltage := U16(b, 14), current := I16(b, 16), remaining := I8(b[30]));
      } else if m.msgId == ATTITUDE {
        ReadsAttitude(state, b);
        state := state.(roll := U32(b, 4), pitch := U32(b, 8), yaw := U32(b, 12));
      } else if m.msgId == GLOBAL_POSITION_INT {
        ReadsPosition(state, b);
        state := state.(latitude := I32(b, 4), longitude := I32(b, 8), altitude := I32(b, 12),
                        relativeAltitude := I32(b, 16));
        if U16(b, 26) != 0xffff { state := state.(heading := U16(b, 26)); }
      } else if m.msgId == GPS_RAW_INT {
        ReadsGps(state, b);
        state := state.(gpsFix := b[28], satellites := b[29]);
      } else if m.msgId == VFR_HUD {
        ReadsHud(state, b);
        state := state.(airSpeed := U32(b, 0), groundSpeed := U32(b, 4), climb := U32(b, 12), throttle := U16(b, 18));
      } else if m.msgId == BATTERY_STATUS {
        ReadsBattery(state, b);
        if U16(b, 5) != 0xffff { state := state.(voltage := U16(b, 5)); }
        state := state.(current := I16(b, 25), remaining := I8(b[35]));
      }
    }
  }

  // Whole histories.

  /** What the latest message that writes a field wrote to it. */
  function Latest(f: Field, messages: seq<Message>): Option<int> {
    if messages == [] then None else
    var w := Written(f, messages[|messages| - 1]);
    if w.Some? then w else Latest(f, messages[..|messages| - 1])
  }

  /** Some message was long enough to be looked at. */
  predicate Seen(messages: seq<Message>) {
    exists i :: 0 <= i < |messages| && |messages[i].data| >= MessageHeader(messages[i]) + CHECKSUM_SIZE
  }

  ghost predicate FieldIs(t: Telemetry, messages: seq<Message>, f: Field) {
    Value(t, f) == Overwritten(Value(NO_TELEMETRY, f), Latest(f, messages))
  }

  ghost predicate FieldsAre(t: Telemetry, messages: seq<Message>) {
    forall f :: FieldIs(t, messages, f)
  }

  /** The state is a function of the messages so far: every field holds what the latest
      message that writes it wrote, and the armed flag follows the base mode. */
  ghost predicate Reflects(t: Telemetry, messages: seq<Message>) {
    && t.armed == Armed(t.baseMode)
    && t.valid == Seen(messages)
    && FieldsAre(t, messages)
  }

  lemma FieldMore(before: Telemetry, m: Message, after: Telemetry, messages: seq<Message>, f: Field)
    requires FieldIs(before, messages, f) && Value(after, f) == Overwritten(Value(before, f), Written(f, m))
    ensures FieldIs(after, messages + [m], f)
  {
    hide Written, Value;
    var longer := messages + [m];
    assert longer[..|longer| - 1] == messages && longer[|messages|] == m;
  }

  lemma ReflectsMore(before: Telemetry, m: Message, after: Telemetry, messages: seq<Message>)
    requires Reflects(before, messages) && Consumed(before, m, after)
    ensures Reflects(after, messages + [m])
  {
    var longer := messages + [m];
    assert longer[|messages|] == m && forall i :: 0 <= i < |messages| ==> longer[i] == messages[i];
    assert Value(after, BaseMode) == Overwritten(Value(before, BaseMode), Written(BaseMode, m));
    hide Written, FieldIs;
    forall f
      ensures FieldIs(after, longer, f)
    {
      assert Value(after, f) == Overwritten(Value(before, f), Written(f, m));
      FieldMore(before, m, after, messages, f);
    }
  }

  lemma FieldAgrees(t: Telemetry, u: Telemetry, messages: seq<Message>, f: Field)
    requires FieldsAre(t, messages) && FieldsAre(u, messages)
    ensures Value(t, f) == Value(u, f)
  {
    hide Latest, Overwritten;
    assert FieldIs(t, messages, f) && FieldIs(u, messages, f);
  }

  /** States that agree on every field are equal. */
  lemma FieldsDecide(t: Telemetry, u: Telemetry)
    requires forall f {:trigger Value(t, f)} :: Value(t, f) == Value(u, f)
    ensures t == u.(valid := t.valid, armed := t.armed)
  {
    assert Value(t, BaseMode) == Value(u, BaseMode);
    assert Value(t, CustomMode) == Value(u, CustomMode);
    assert Value(t, SystemStatus) == Value(u, SystemStatus);
    assert Value(t, MavType) == Value(u, MavType);
    assert Value(t, Roll) == Value(u, Roll);
    assert Value(t, Pitch) == Value(u, Pitch);
    assert Value(t, Yaw) == Value(u, Yaw);
    assert Value(t, Latitude) == Value(u, Latitude);
    assert Value(t, Longitude) == Value(u, Longitude);
    assert Value(t, Altitude) == Value(u, Altitude);
    assert Value(t, RelativeAltitude) == Value(u, RelativeAltitude);
    assert Value(t, Heading) == Value(u, Heading);
    assert Value(t, Satellites) == Value(u, Satellites);
    assert Value(t, GpsFix) == Value(u, GpsFix);
    assert Value(t, GroundSpeed) == Value(u, GroundSpeed);
    assert Value(t, AirSpeed) == Value(u, AirSpeed);
    assert Value(t, Climb) == Value(u, Climb);
    assert Value(t, Throttle) == Value(u, Throttle);
    assert Value(t, Voltage) == Value(u, Voltage);
    assert Value(t, Current) == Value(u, Current);
    assert Value(t, Remaining) == Value(u, Remaining);
  }

  lemma ReflectsOne(t: Telemetry, u: Telemetry, messages: seq<Message>)
    requires Reflects(t, messages) && Reflects(u, messages)
    ensures t == u
  {
    hide Seen, FieldsAre;
    forall f
      ensures Value(t, f) == Value(u, f)
    {
      FieldAgrees(t, u, messages, f);
    }
    FieldsDecide(t, u);
  }

  /** The downlink half of the router: a framer whose messages feed the decoder. */
  class Downlink {
    const framer: MavlinkFramer
    const decoder: TelemetryDecoder
    var downlinkBytes: nat
    ghost var fed: seq<byte>  // everything fed so far

    ghost predicate Valid()
      reads this, framer, decoder
    {
      && framer.Valid() && framer.View() == Scan(fed) && downlinkBytes == |fed|
      && Reflects(decoder.state, framer.received)
    }

    constructor ()
      ensures Valid() && fed == [] && fresh(framer) && fresh(decoder)
    {
      framer := new MavlinkFramer();
      decoder := new TelemetryDecoder();
      downlinkBytes, fed := 0, [];
    }

    /** Telemetry after any sequence of calls is that of the messages in the bytes fed. */
    method FeedDownlink(data: seq<byte>)
      requires Valid()
      modifies this, framer, decoder
      ensures Valid() && fed == old(fed) + data
    {
      hide Scan, Reflects, Consumed;
      if |data| == 0 {
        assert fed + data == fed;
        return;
      }
      var from := |framer.received|;
      downlinkBytes := downlinkBytes + |data|;
      ScanConcat(fed, data);
      framer.Push(data);
      fed := fed + data;
      var i := from;
      assert framer.received[..i] == old(framer.received);
      while i < |framer.received|
        invariant from <= i <= |framer.received| && framer.Valid() && framer.View() == Scan(fed)
        invariant fed == old(fed) + data && downlinkBytes == |fed|
        invariant Reflects(decoder.state, framer.received[..i])
      {
        var m := framer.received[i];
        ghost var before := decoder.state;
        decoder.Consume(m);
        assert framer.received[..i + 1] == framer.received[..i] + [m];
        ReflectsMore(before, m, decoder.state, framer.received[..i]);
        i := i + 1;
      }
      assert framer.received[..i] == framer.received;
    }
  }

  /** The uplink half of an endpoint: only whole frames go up. */
  class Uplink {
    const framer: MavlinkFramer
    const allowUplink: bool
    const hasSink: bool
    var uplinkBytes: nat
    var sent: seq<seq<byte>>
    ghost var fed: seq<byte>

    ghost predicate Valid()
      reads this, framer
    {
      && framer.Valid() && framer.View() == Scan(fed)
      && sent == Payloads(framer.received) && uplinkBytes == TotalSize(framer.received)
    }

    constructor (allowUplink: bool, hasSink: bool)
      ensures Valid() && fed == [] && this.allowUplink == allowUplink && this.hasSink == hasSink && fresh(framer)
    {
      this.hasSink := hasSink;
      framer := new MavlinkFramer();
      this.allowUplink, uplinkBytes, sent, fed := allowUplink, 0, [], [];
    }

    /** What was sent up is, in order, every whole frame of the bytes accepted so far; without
        permission or a sink none are accepted. */
    method HandleEndpointData(data: seq<byte>)
      requires Valid()
      modifies this, framer
      ensures Valid() && fed == old(fed) + if allowUplink && hasSink then data else []
    {
      hide Scan, Payloads, TotalSize;
      if !allowUplink || !hasSink { return; }
      var from := |framer.received|;
      ScanConcat(fed, data);
      framer.Push(data);
      fed := fed + data;
      var i := from;
      assert framer.received[..i] == old(framer.received);
      while i < |framer.received|
        invariant from <= i <= |framer.received| && framer.Valid() && framer.View() == Scan(fed)
        invariant fed == old(fed) + data
        invariant sent == Payloads(framer.received[..i]) && uplinkBytes == TotalSize(framer.received[..i])
      {
        var m := framer.received[i];
        assert framer.received[..i + 1] == framer.received[..i] + [m];
        PayloadsSnoc(framer.received[..i], m);
        TotalSizeSnoc(framer.received[..i], m);
        uplinkBytes := uplinkBytes + |m.data|;
        sent := sent + [m.data];
        i := i + 1;
      }
      assert framer.received[..i] == framer.received;
    }
  }

  function Payloads(messages: seq<Message>): seq<seq<byte>> {
    seq(|messages|, i requires 0 <= i < |messages| => messages[i].data)
  }

  lemma PayloadsSnoc(messages: seq<Message>, m: Message)
    ensures Payloads(messages + [m]) == Payloads(messages) + [m.data]
  {
  }

  lemma {:induction false} TotalSizeSnoc(messages: seq<Message>, m: Message)
    ensures TotalSize(messages + [m]) == TotalSize(messages) + |m.data|
  {
    if messages == [] {
      assert [] + [m] == [m] && [m][1..] == [];
    } else {
      assert (messages + [m])[0] == messages[0] && (messages + [m])[1..] == messages[1..] + [m];
      TotalSizeSnoc(messages[1..], m);
    }
  }

  /** What went up: the whole frames of the bytes accepted, each as it came, and their size. */
  lemma SendsWholeFrames(u: Uplink)
    requires u.Valid()
    ensures var frames := Scan(u.fed).messages;
            && |u.sent| == |frames| && (forall i :: 0 <= i < |frames| ==> u.sent[i] == frames[i].data)
            && u.uplinkBytes + Scan(u.fed).dropped + |Scan(u.fed).residue| == |u.fed|
  {
    assert u.framer.received == Scan(u.fed).messages by {
      assert u.framer.View() == Scan(u.fed);
    }
    ScanTiles(u.fed);
    RawSize(Segments(u.fed));
  }

  /** However a downlink is cut, the telemetry is the same. */
  lemma CutDoesNotMatter(a: Downlink, b: Downlink)
    requires a.Valid() && b.Valid() && a.fed == b.fed
    ensures a.decoder.state == b.decoder.state
  {
    hide Scan, Reflects;
    assert a.framer.received == b.framer.received by {
      assert a.framer.View() == b.framer.View();
    }
    ReflectsOne(a.decoder.state, b.decoder.state, a.framer.received);
  }

  // Where the bytes come from.

  /** Interpreted from the packet's own payload, or not at all. */
  ghost predicate Faithful(p: Packet)
    requires p.Valid() && Need(p.msgid).Some?
  {
    var need := Need(p.msgid).value;
    Interpreted(p.Sent()) == if |p.payload| >= need then Some(p.payload[..need]) else None
  }

  function Signature(p: Packet): seq<byte> {
    if p.V2? then p.signature else []
  }

  lemma InterpretedBytes(p: Packet)
    requires p.Valid() && Need(p.msgid).Some?
    ensures var need, behind := Need(p.msgid).value, p.payload + Be16(p.checksum) + Signature(p);
            Interpreted(p.Sent()) ==
            if need <= |p.payload| + |Signature(p)| then Some(behind[..need]) else None
  {
    hide Need;
    var m := p.Sent();
    var header := MessageHeader(m);
    var behind, need := p.payload + Be16(p.checksum) + Signature(p), Need(p.msgid).value;
    assert m.data[header..] == behind;
    if need <= |p.payload| + |Signature(p)| {
      assert m.data[header..header + need] == behind[..need];
    }
  }

  /** The decoder counts a signature as payload. A packet is interpreted from its own
      payload exactly unless it is signed and its payload falls short of what its kind
      needs by no more than the signature's length: then checksum and signature
      bytes are read as telemetry. */
  lemma FaithfulExactly(p: Packet)
    requires p.Valid() && Need(p.msgid).Some?
    ensures Faithful(p) <==> !(|p.payload| < Need(p.msgid).value <= |p.payload| + |Signature(p)|)
  {
    InterpretedBytes(p);
    hide Need, Interpreted;
    var need, behind := Need(p.msgid).value, p.payload + Be16(p.checksum) + Signature(p);
    assert need <= |p.payload| ==> behind[..need] == p.payload[..need];
  }

  // Zeros cut off the end of a payload, as version 2 of the protocol does.

  /** The first message is the second with trailing zeros cut off its payload; checksum and
      signature are its own. The second is as long as its kind demands. */
  ghost predicate CutOf(cut: Packet, full: Packet) {
    && cut.V2? && full.V2? && cut.Valid() && full.Valid() && cut.msgid == full.msgid && Need(full.msgid).Some?
    && |cut.payload| <= |full.payload| && Need(full.msgid).value <= |full.payload|
    && full.payload[..|cut.payload|] == cut.payload
    && forall i :: |cut.payload| <= i < |full.payload| ==> full.payload[i] == 0
  }

  /** Both messages write the same to every field. */
  ghost predicate SameTelemetry(cut: Packet, full: Packet)
    requires cut.Valid() && full.Valid()
  {
    forall f :: Written(f, cut.Sent()) == Written(f, full.Sent())
  }

  function Behind(p: Packet): seq<byte> {
    p.payload + Be16(p.checksum) + Signature(p)
  }

  /** Every byte behind the payload that stands where a field is read is zero. */
  ghost predicate ZerosRead(p: Packet) {
    forall f :: PlaceOf(f, p.msgid).Some? ==> ZerosReadFor(p, f)
  }

  ghost predicate ZerosReadFor(p: Packet, f: Field)
    requires PlaceOf(f, p.msgid).Some?
  {
    forall i :: IsRead(PlaceOf(f, p.msgid).value, i) && |p.payload| <= i < |Behind(p)| ==> Behind(p)[i] == 0
  }

  predicate IsRead(place: Place, i: int) {
    place.at <= i < place.at + place.width
  }

  lemma {:induction false} LittleEndianInjective(a: seq<byte>, b: seq<byte>)
    requires |a| == |b| && LittleEndian(a) == LittleEndian(b)
    ensures a == b
  {
    if a != [] {
      assert a[0] == b[0] && LittleEndian(a[1..]) == LittleEndian(b[1..]);
      LittleEndianInjective(a[1..], b[1..]);
      assert a == [a[0]] + a[1..] && b == [b[0]] + b[1..];
    }
  }

  lemma {:induction false} LittleEndianBound(a: seq<byte>)
    ensures |a| == 1 ==> LittleEndian(a) < 0x100
    ensures |a| == 2 ==> LittleEndian(a) < 0x1_0000
    ensures |a| == 4 ==> LittleEndian(a) < 0x1_0000_0000
  {
    LittleEndianWidths(a, 0);
    assert a[0..|a|] == a;
  }

  /** No two byte strings mean the same. */
  lemma MeaningInjective(p: Place, a: seq<byte>, b: seq<byte>)
    requires |a| == |b| == p.width && p.width in {1, 2, 4} && (p.mayBeUnknown ==> p.width == 2)
    requires Meaning(p, a) == Meaning(p, b)
    ensures a == b
  {
    LittleEndianBound(a);
    LittleEndianBound(b);
    NumberMeansInjective(p, LittleEndian(a), LittleEndian(b));
    LittleEndianInjective(a, b);
  }

  lemma NumberMeansInjective(p: Place, m: nat, n: nat)
    requires m < Range(p.width) && n < Range(p.width)
    requires NumberMeans(p, m) == NumberMeans(p, n)
    ensures m == n
  {
  }

  /** Every kind has a field that every message of it writes. */
  function SomeField(msgid: nat): Field
    requires Need(msgid).Some?
  {
    if msgid == HEARTBEAT then BaseMode
    else if msgid == SYS_STATUS then Current
    else if msgid == ATTITUDE then Roll
    else if msgid == GLOBAL_POSITION_INT then Latitude
    else if msgid == GPS_RAW_INT then Satellites
    else if msgid == VFR_HUD then Climb
    else Current
  }

  lemma SomeFieldWritten(m: Message)
    requires Need(m.msgId).Some?
    ensures Written(SomeField(m.msgId), m).Some? == Interpreted(m).Some?
  {
    hide LittleEndian, Interpreted;
  }

  lemma CutBytes(cut: Packet, full: Packet)
    requires CutOf(cut, full)
    ensures var need := Need(cut.msgid).value;
            && Interpreted(full.Sent()) == Some(full.payload[..need])
            && Interpreted(cut.Sent()) ==
               if need <= |cut.payload| + |Signature(cut)| then Some(Behind(cut)[..need]) else None
  {
    hide Need, Interpreted;
    InterpretedBytes(cut);
    InterpretedBytes(full);
    var need := Need(cut.msgid).value;
    assert Behind(full)[..need] == full.payload[..need];
  }

  lemma FieldBytes(cut: Packet, full: Packet, f: Field)
    requires CutOf(cut, full) && Need(cut.msgid).value <= |cut.payload| + |Signature(cut)|
    requires PlaceOf(f, cut.msgid).Some?
    ensures var p, need := PlaceOf(f, cut.msgid).value, Need(cut.msgid).value;
            && Written(f, cut.Sent()) == Meaning(p, FieldOf(p, Behind(cut)[..need]))
            && Written(f, full.Sent()) == Meaning(p, FieldOf(p, full.payload[..need]))
  {
    hide Need, Interpreted, PlaceOf, Meaning;
    CutBytes(cut, full);
  }

  lemma SameBytes(cut: Packet, full: Packet, f: Field)
    requires CutOf(cut, full) && Need(cut.msgid).value <= |cut.payload| + |Signature(cut)|
    requires PlaceOf(f, cut.msgid).Some?
    ensures var p, need := PlaceOf(f, cut.msgid).value, Need(cut.msgid).value;
            FieldOf(p, Behind(cut)[..need]) == FieldOf(p, full.payload[..need]) <==> ZerosReadFor(cut, f)
  {
    hide Need, PlaceOf, Signature;
    var p := PlaceOf(f, cut.msgid).value;
    SlicesAgree(Behind(cut), full.payload, |cut.payload|, Need(cut.msgid).value, p.at, p.width);
  }

  lemma SameField(cut: Packet, full: Packet, f: Field)
    requires CutOf(cut, full) && Need(cut.msgid).value <= |cut.payload| + |Signature(cut)|
    requires PlaceOf(f, cut.msgid).Some?
    ensures Written(f, cut.Sent()) == Written(f, full.Sent()) <==> ZerosReadFor(cut, f)
  {
    hide Need, Interpreted, PlaceOf, Meaning, Written, Signature, ZerosReadFor;
    FieldBytes(cut, full, f);
    SameBytes(cut, full, f);
    var p, need := PlaceOf(f, cut.msgid).value, Need(cut.msgid).value;
    var a, b := FieldOf(p, Behind(cut)[..need]), FieldOf(p, full.payload[..need]);
    if Meaning(p, a) == Meaning(p, b) {
      MeaningInjective(p, a, b);
    }
  }

  /** Two byte strings that agree up to n, the second with nothing but zeros from there on. */
  lemma SlicesAgree(x: seq<byte>, y: seq<byte>, n: nat, need: nat, at: nat, width: nat)
    requires n <= |x| && n <= |y| && at + width <= need && need <= |x| && need <= |y|
    requires x[..n] == y[..n] && forall i :: n <= i < |y| ==> y[i] == 0
    ensures x[..need][at..at + width] == y[..need][at..at + width] <==>
            forall i :: at <= i < at + width && n <= i < |x| ==> x[i] == 0
  {
    assert forall i :: 0 <= i < n ==> x[i] == x[..n][i] == y[..n][i] == y[i];
    var a, b := x[..need][at..at + width], y[..need][at..at + width];
    assert forall i {:trigger x[i]} :: at <= i < at + width ==> a[i - at] == x[i] && b[i - at] == y[i];
    if a == b {
      forall i | at <= i < at + width && n <= i < |x|
        ensures x[i] == 0
      {
        assert a[i - at] == b[i - at];
      }
    } else {
      var k :| 0 <= k < width && a[k] != b[k];
      assert x[at + k] != y[at + k];
    }
  }

  /** When cutting zeros is harmless: exactly when the cut message is still interpreted and
      whatever of its checksum and signature is read as telemetry happens to be zero. An
      unsigned one, then, only if what is left is as long as its kind demands. */
  lemma CutHarmlessExactly(cut: Packet, full: Packet)
    requires CutOf(cut, full)
    ensures SameTelemetry(cut, full) <==>
            Need(cut.msgid).value <= |cut.payload| + |Signature(cut)| && ZerosRead(cut)
  {
    CutBytes(cut, full);
    hide Interpreted, PlaceOf, Written, ZerosReadFor;
    if Need(cut.msgid).value <= |cut.payload| + |Signature(cut)| {
      forall f | PlaceOf(f, cut.msgid).Some?
        ensures Written(f, cut.Sent()) == Written(f, full.Sent()) <==> ZerosReadFor(cut, f)
      {
        SameField(cut, full, f);
      }
      forall f | PlaceOf(f, cut.msgid).None?
        ensures Written(f, cut.Sent()) == Written(f, full.Sent())
      {
        NotWritten(f, cut.Sent());
        NotWritten(f, full.Sent());
      }
    } else {
      SomeFieldWritten(cut.Sent());
      SomeFieldWritten(full.Sent());
    }
  }

  lemma NotWritten(f: Field, m: Message)
    requires PlaceOf(f, m.msgId).None?
    ensures Written(f, m).None?
  {
  }

  /** A signed VFR_HUD with its throttle of zero cut off: the throttle is read from the checksum. */
  lemma MisreadsCutThrottle(p: Packet)
    requires p.V2? && p.Valid() && p.msgid == VFR_HUD && p.incompatFlags % 2 == 1 && |p.payload| == 18
    ensures Written(Throttle, p.Sent()) == Some(U16(Be16(p.checksum), 0))
  {
    InterpretedBytes(p);
    var b := Interpreted(p.Sent()).value;
    assert b[18] == Be16(p.checksum)[0] && b[19] == Be16(p.checksum)[1];
    MeaningOf2(b, 18);
  }

  /** The same unsigned: nothing of it is read, and the old throttle stays. */
  lemma DropsCutThrottle(p: Packet, f: Field)
    requires p.V2? && p.Valid() && p.msgid == VFR_HUD && p.incompatFlags % 2 == 0 && |p.payload| == 18
    ensures Written(f, p.Sent()) == None
  {
    InterpretedBytes(p);
  }

  // BATTERY_STATUS, as MAVLink serialises it: by size of the fields, larger ones first.

  datatype Battery = Battery(
    consumed: uint32, energy: uint32, temperature: uint16, voltages: seq<uint16>, current: uint16,
    id: byte, role: byte, kind: byte, remaining: byte)

  function Le16(n: uint16): (b: seq<byte>)
    ensures |b| == 2
  {
    [n % 256, n / 256]
  }

  function Le32(n: uint32): (b: seq<byte>)
    ensures |b| == 4
  {
    Le16(n % 0x1_0000) + Le16(n / 0x1_0000)
  }

  function BatteryPayload(b: Battery): (r: seq<byte>)
    requires |b.voltages| == 10
    ensures |r| == Need(BATTERY_STATUS).value
  {
    Le32(b.consumed) + Le32(b.energy) + Le16(b.temperature)
    + seq(20, i requires 0 <= i < 20 => Le16(b.voltages[i / 2])[i % 2])
    + Le16(b.current) + [b.id, b.role, b.kind, b.remaining]
  }

  /** What the decoder makes of a packet that carries such a payload. */
  ghost predicate Carries(p: Packet, b: Battery) {
    p.Valid() && p.msgid == BATTERY_STATUS && |b.voltages| == 10 && p.payload == BatteryPayload(b)
  }

  /** It reads the fields where the order of declaration would put them: the voltage from
      the middle of the energy counter, the current from the eighth and ninth cell. Only
      the percentage is where it should be. */
  lemma MisreadsBattery(p: Packet, b: Battery)
    requires Carries(p, b)
    ensures Written(Voltage, p.Sent()) == Known(b.energy / 256 % 0x1_0000)
    ensures Written(Current, p.Sent()) == Some(Signed(b.voltages[7] / 256 + 256 * (b.voltages[8] % 256), 0x1_0000))
    ensures Written(Remaining, p.Sent()) == Some(I8(b.remaining))
  {
    FaithfulExactly(p);
    assert p.payload[..|p.payload|] == p.payload;
    hide Interpreted;
    BatteryReadings(b);
  }

  lemma BatteryReadings(b: Battery)
    requires |b.voltages| == 10
    ensures var r := BatteryPayload(b);
            && Reading(Voltage, BATTERY_STATUS, r) == Known(b.energy / 256 % 0x1_0000)
            && Reading(Current, BATTERY_STATUS, r) ==
               Some(Signed(b.voltages[7] / 256 + 256 * (b.voltages[8] % 256), 0x1_0000))
            && Reading(Remaining, BATTERY_STATUS, r) == Some(I8(b.remaining))
  {
    var r := BatteryPayload(b);
    MeaningOf2(r, 5);
    MeaningOf2(r, 25);
    MeaningOf1(r, 35);
    MiddleBytes(b.energy);
    assert r[5] == Le32(b.energy)[1] && r[6] == Le32(b.energy)[2];
    assert r[25] == Le16(b.voltages[7])[1] && r[26] == Le16(b.voltages[8])[0];
    hide Meaning, BatteryPayload, Le32;
  }

  lemma MiddleBytes(n: uint32)
    ensures U16(Le32(n), 1) == n / 256 % 0x1_0000
  {
    var lo: int, hi: int := n % 0x1_0000, n / 0x1_0000;
    assert n == hi * 0x1_0000 + lo;
    assert n / 256 == hi * 256 + lo / 256;
    assert hi == hi / 256 * 256 + hi % 256;
  }

  /** A full battery of 16.8 volts, nothing drawn from it yet: the decoder reads zero volts. */
  lemma ReadsFullBatteryAsEmpty(p: Packet, b: Battery)
    requires Carries(p, b) && b.voltages[0] == 16800 && b.energy == 0
    ensures Written(Voltage, p.Sent()) == Some(0)
  {
    MisreadsBattery(p, b);
  }
}

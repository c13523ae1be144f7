/** What each kind of message does to the telemetry, from the numbers that were sent to
    the state that is left, with the serialised fields written out. */
module MavlinkFields {
  import opened Bytes
  import opened MavlinkFramers
  import opened MavlinkStreams
  import opened MavlinkTelemetry

  /** Numbers of either sign, modulo 2^8, 2^16 and 2^32. */
  function Wire8(v: int): byte {
    v % 0x100
  }

  function Wire16(v: int): (b: seq<byte>)
    ensures |b| == 2
  {
    Le16(v % 0x1_0000)
  }

  function Wire32(v: int): (b: seq<byte>)
    ensures |b| == 4
  {
    Le32(v % 0x1_0000_0000)
  }

  lemma HalfAt(b: seq<byte>, at: nat, n: uint16)
    requires at + 2 <= |b| && b[at..at + 2] == Le16(n)
    ensures U16(b, at) == n
  {
    assert b[at] == b[at..at + 2][0] && b[at + 1] == b[at..at + 2][1];
  }

  lemma WordAt(b: seq<byte>, at: nat, n: uint32)
    requires at + 4 <= |b| && b[at..at + 4] == Le32(n)
    ensures U32(b, at) == n
  {
    var c := b[at..at + 4];
    assert b[at..at + 2] == c[..2] && b[at + 2..at + 4] == c[2..];
    HalfAt(b, at, n % 0x1_0000);
    HalfAt(b, at + 2, n / 0x1_0000);
  }

  lemma TwosComplement8(v: int)
    requires -0x80 <= v < 0x80
    ensures I8(Wire8(v)) == v
  {
  }

  lemma SignedHalfAt(b: seq<byte>, at: nat, v: int)
    requires at + 2 <= |b| && b[at..at + 2] == Wire16(v) && -0x8000 <= v < 0x8000
    ensures I16(b, at) == v
  {
    HalfAt(b, at, v % 0x1_0000);
    assert v < 0 ==> v % 0x1_0000 == v + 0x1_0000;
  }

  lemma SignedWordAt(b: seq<byte>, at: nat, v: int)
    requires at + 4 <= |b| && b[at..at + 4] == Wire32(v) && -0x8000_0000 <= v < 0x8000_0000
    ensures I32(b, at) == v
  {
    WordAt(b, at, v % 0x1_0000_0000);
    assert v < 0 ==> v % 0x1_0000_0000 == v + 0x1_0000_0000;
  }

  /** A packet consumed: the state is what its payload reads as. */
  lemma PayloadRead(before: Telemetry, p: Packet, after: Telemetry, b: seq<byte>, t: Telemetry)
    requires p.Valid() && Consumed(before, p.Sent(), after) && Need(p.msgid) == Some(|b|)
    requires |b| <= |p.payload| && b == p.payload[..|b|] && Reads(before, p.msgid, b, t)
    ensures after == t.(valid := true, armed := after.armed)
    ensures p.msgid == HEARTBEAT ==> after.armed == Armed(t.baseMode)
    ensures p.msgid != HEARTBEAT ==> after.armed == before.armed
  {
    FaithfulExactly(p);
    hide Interpreted, Need;
    assert forall f :: Written(f, p.Sent()) == Reading(f, p.msgid, b);
    hide Reading;
    forall f
      ensures Value(after, f) == Value(t, f)
    {
      assert Value(after, f) == Overwritten(Value(before, f), Written(f, p.Sent()));
    }
    assert Written(BaseMode, p.Sent()).Some? == (p.msgid == HEARTBEAT) by { OnlyHeartbeats(p.msgid, b); }
    assert Value(after, BaseMode) == Value(t, BaseMode);
    hide Value, Written;
    FieldsDecide(after, t);
  }

  lemma OnlyHeartbeats(msgid: nat, b: seq<byte>)
    requires Need(msgid) == Some(|b|)
    ensures Reading(BaseMode, msgid, b).Some? == (msgid == HEARTBEAT)
  {
    hide LittleEndian;
  }

  /** HEARTBEAT: custom mode, type, autopilot, base mode, system status. */
  lemma DecodesHeartbeat(
    before: Telemetry, p: Packet, after: Telemetry,
    customMode: uint32, kind: byte, autopilot: byte, baseMode: byte, systemStatus: byte, rest: seq<byte>)
    requires p.Valid() && Consumed(before, p.Sent(), after) && p.msgid == 0
    requires p.payload == Le32(customMode) + [kind, autopilot, baseMode, systemStatus] + rest
    ensures after == before.(valid := true, customMode := customMode, mavType := kind, baseMode := baseMode,
                             systemStatus := systemStatus, armed := baseMode >= 128)
  {
    hide Reads, Consumed, U32, Le32;
    var b := p.payload[..8];
    ReadsHeartbeat(before, b);
    assert b[0..4] == Le32(customMode);
    WordAt(b, 0, customMode);
    var t := before.(customMode := U32(b, 0), mavType := b[4], baseMode := b[6], systemStatus := b[7],
                     armed := Armed(b[6]));
    PayloadRead(before, p, after, b, t);
  }

  /** SYS_STATUS: voltage in millivolts, current in hundredths of an ampere, percentage left. */
  lemma DecodesSysStatus(
    before: Telemetry, p: Packet, after: Telemetry,
    sensors: seq<byte>, voltage: uint16, current: int, counters: seq<byte>, remaining: int, rest: seq<byte>)
    requires p.Valid() && Consumed(before, p.Sent(), after) && p.msgid == 1
    requires |sensors| == 14 && |counters| == 12 && -0x8000 <= current < 0x8000 && -0x80 <= remaining < 0x80
    requires p.payload == sensors + Le16(voltage) + Wire16(current) + counters + [Wire8(remaining)] + rest
    ensures after == before.(valid := true, voltage := voltage, current := current, remaining := remaining)
  {
    hide Reads, Consumed, U16, I16, I8, Le16, Wire16, Wire8;
    var b := p.payload[..31];
    ReadsSysStatus(before, b);
    assert b[14..16] == Le16(voltage) && b[16..18] == Wire16(current) && b[30] == Wire8(remaining);
    HalfAt(b, 14, voltage);
    SignedHalfAt(b, 16, current);
    TwosComplement8(remaining);
    var t := before.(voltage := U16(b, 14), current := I16(b, 16), remaining := I8(b[30]));
    PayloadRead(before, p, after, b, t);
  }

  /** ATTITUDE: time, then roll, pitch and yaw, as bits. */
  lemma DecodesAttitude(
    before: Telemetry, p: Packet, after: Telemetry, time: uint32, roll: uint32, pitch: uint32, yaw: uint32,
    rest: seq<byte>)
    requires p.Valid() && Consumed(before, p.Sent(), after) && p.msgid == 30
    requires p.payload == Le32(time) + Le32(roll) + Le32(pitch) + Le32(yaw) + rest
    ensures after == before.(valid := true, roll := roll, pitch := pitch, yaw := yaw)
  {
    hide Reads, Consumed, U32, Le32;
    var b := p.payload[..16];
    ReadsAttitude(before, b);
    assert b[4..8] == Le32(roll) && b[8..12] == Le32(pitch) && b[12..16] == Le32(yaw);
    WordAt(b, 4, roll);
    WordAt(b, 8, pitch);
    WordAt(b, 12, yaw);
    PayloadRead(before, p, after, b, before.(roll := U32(b, 4), pitch := U32(b, 8), yaw := U32(b, 12)));
  }

  /** GLOBAL_POSITION_INT: time, latitude and longitude in 1e-7 degrees, altitude and
      altitude above home in millimetres, velocities, heading in hundredths of a degree;
      a heading of 65535 is none. */
  lemma DecodesPosition(
    before: Telemetry, p: Packet, after: Telemetry, time: uint32, latitude: int, longitude: int, altitude: int,
    relative: int, velocities: seq<byte>, heading: uint16, rest: seq<byte>)
    requires p.Valid() && Consumed(before, p.Sent(), after) && p.msgid == 33 && |velocities| == 6
    requires -0x8000_0000 <= latitude < 0x8000_0000 && -0x8000_0000 <= longitude < 0x8000_0000
    requires -0x8000_0000 <= altitude < 0x8000_0000 && -0x8000_0000 <= relative < 0x8000_0000
    requires p.payload == Le32(time) + Wire32(latitude) + Wire32(longitude) + Wire32(altitude) + Wire32(relative)
                          + velocities + Le16(heading) + rest
    ensures after == before.(valid := true, latitude := latitude, longitude := longitude, altitude := altitude,
                             relativeAltitude := relative,
                             heading := if heading == 0xffff then before.heading else heading)
  {
    hide Reads, Consumed, U16, I32, Le16, Wire32;
    var b := p.payload[..28];
    ReadsPosition(before, b);
    assert b[4..8] == Wire32(latitude) && b[8..12] == Wire32(longitude) && b[12..16] == Wire32(altitude);
    assert b[16..20] == Wire32(relative) && b[26..28] == Le16(heading);
    SignedWordAt(b, 4, latitude);
    SignedWordAt(b, 8, longitude);
    SignedWordAt(b, 12, altitude);
    SignedWordAt(b, 16, relative);
    HalfAt(b, 26, heading);
    var u := before.(latitude := I32(b, 4), longitude := I32(b, 8), altitude := I32(b, 12),
                     relativeAltitude := I32(b, 16));
    PayloadRead(before, p, after, b, if U16(b, 26) != 0xffff then u.(heading := U16(b, 26)) else u);
  }

  /** GPS_RAW_INT: fix type and satellites behind 28 other bytes. */
  lemma DecodesGps(
    before: Telemetry, p: Packet, after: Telemetry, others: seq<byte>, fix: byte, satellites: byte, rest: seq<byte>)
    requires p.Valid() && Consumed(before, p.Sent(), after) && p.msgid == 24 && |others| == 28
    requires p.payload == others + [fix, satellites] + rest
    ensures after == before.(valid := true, gpsFix := fix, satellites := satellites)
  {
    hide Reads, Consumed;
    var b := p.payload[..30];
    ReadsGps(before, b);
    PayloadRead(before, p, after, b, before.(gpsFix := b[28], satellites := b[29]));
  }

  /** VFR_HUD: air speed, ground speed, altitude and climb as bits, heading, throttle. */
  lemma DecodesHud(
    before: Telemetry, p: Packet, after: Telemetry, airSpeed: uint32, groundSpeed: uint32, altitude: uint32,
    climb: uint32, heading: uint16, throttle: uint16, rest: seq<byte>)
    requires p.Valid() && Consumed(before, p.Sent(), after) && p.msgid == 74
    requires p.payload == Le32(airSpeed) + Le32(groundSpeed) + Le32(altitude) + Le32(climb) + Le16(heading)
                          + Le16(throttle) + rest
    ensures after == before.(valid := true, airSpeed := airSpeed, groundSpeed := groundSpeed, climb := climb,
                             throttle := throttle)
  {
    hide Reads, Consumed, U16, U32, Le16, Le32;
    var b := p.payload[..20];
    ReadsHud(before, b);
    assert b[0..4] == Le32(airSpeed) && b[4..8] == Le32(groundSpeed) && b[12..16] == Le32(climb);
    assert b[18..20] == Le16(throttle);
    WordAt(b, 0, airSpeed);
    WordAt(b, 4, groundSpeed);
    WordAt(b, 12, climb);
    HalfAt(b, 18, throttle);
    var t := before.(airSpeed := U32(b, 0), groundSpeed := U32(b, 4), climb := U32(b, 12), throttle := U16(b, 18));
    PayloadRead(before, p, after, b, t);
  }

  /** BATTERY_STATUS, in the order the decoder expects: five bytes, the first cell's
      voltage, the other nine, the current, eight bytes, the percentage left. A voltage of
      65535 is none. */
  lemma DecodesBattery(
    before: Telemetry, p: Packet, after: Telemetry, front: seq<byte>, cell: uint16, cells: seq<byte>, current: int,
    counters: seq<byte>, remaining: int, rest: seq<byte>)
    requires p.Valid() && Consumed(before, p.Sent(), after) && p.msgid == 147
    requires |front| == 5 && |cells| == 18 && |counters| == 8
    requires -0x8000 <= current < 0x8000 && -0x80 <= remaining < 0x80
    requires p.payload == front + Le16(cell) + cells + Wire16(current) + counters + [Wire8(remaining)] + rest
    ensures after == before.(valid := true, voltage := if cell == 0xffff then before.voltage else cell,
                             current := current, remaining := remaining)
  {
    hide Reads, Consumed, U16, I16, I8, Le16, Wire16, Wire8;
    var b := p.payload[..36];
    ReadsBattery(before, b);
    assert b[5..7] == Le16(cell) && b[25..27] == Wire16(current) && b[35] == Wire8(remaining);
    HalfAt(b, 5, cell);
    SignedHalfAt(b, 25, current);
    TwosComplement8(remaining);
    var u := if U16(b, 5) != 0xffff then before.(voltage := U16(b, 5)) else before;
    PayloadRead(before, p, after, b, u.(current := I16(b, 25), remaining := I8(b[35])));
  }

  /** Everything else leaves the state alone, but for the flag that something was heard:
      other kinds, and messages that with their signature are too short for their kind. */
  lemma LeavesAlone(before: Telemetry, p: Packet, after: Telemetry)
    requires p.Valid() && Consumed(before, p.Sent(), after)
    requires var n := |p.payload| + if p.V2? then |p.signature| else 0;
             && (p.msgid == 0 ==> n < 8) && (p.msgid == 1 ==> n < 31) && (p.msgid == 24 ==> n < 30)
             && (p.msgid == 30 ==> n < 16) && (p.msgid == 33 ==> n < 28) && (p.msgid == 74 ==> n < 20)
             && (p.msgid == 147 ==> n < 36)
    ensures after == before.(valid := true)
  {
    if Need(p.msgid).Some? {
      InterpretedBytes(p);
    }
    assert forall f :: Written(f, p.Sent()) == None;
    hide Interpreted;
    forall f
      ensures Value(after, f) == Value(before, f)
    {
      assert Value(after, f) == Overwritten(Value(before, f), Written(f, p.Sent()));
    }
    assert Written(BaseMode, p.Sent()) == None;
    hide Value, Written;
    FieldsDecide(after, before);
  }

  /** A message too short to hold header and checksum is not even heard. */
  lemma IgnoresStub(before: Telemetry, m: Message, after: Telemetry)
    requires Consumed(before, m, after) && |m.data| < (if m.v2 then 10 else 6) + 2
    ensures after == before
  {
    assert forall f :: Written(f, m) == None;
    forall f
      ensures Value(after, f) == Value(before, f)
    {
      assert Value(after, f) == Overwritten(Value(before, f), Written(f, m));
    }
    assert Written(BaseMode, m) == None;
    hide Value, Written;
    FieldsDecide(after, before);
  }

  /** Before anything is heard: nothing, and minus one percent for unknown. */
  lemma StartsUnknown(t: Telemetry)
    requires Reflects(t, [])
    ensures !t.valid && !t.armed && t.remaining == -1
    ensures t == Telemetry(false, false, 0, 0, 0, 0, 0, 0, 0, 0, 0, 0, 0, 0, 0, 0, 0, 0, 0, 0, 0, 0, -1)
  {
    forall f
      ensures Value(t, f) == Value(NO_TELEMETRY, f)
    {
      assert FieldIs(t, [], f);
    }
    assert FieldIs(t, [], BaseMode);
    hide FieldIs, FieldsAre;
    FieldsDecide(t, NO_TELEMETRY);
  }
}

/** Wfb addressing: the 802.11 frame the uplink builds and the classifier that tells
    one's own frames from everybody else's. */
module WfbAddressing {
  import opened Bytes

  const IEEE80211_HEADER_SIZE := 24
  const FCS_SIZE := 4
  const SRC_MAC_OFFSET := 10
  const DST_MAC_OFFSET := 16
  const MAC_BYTE_0: byte := 0x57
  const MAC_BYTE_1: byte := 0x42
  const LINK_IDS := 0x100_0000

  const IEEE80211_HEADER: seq<byte> := [
    0x08, 0x01, 0x00, 0x00,
    0xff, 0xff, 0xff, 0xff, 0xff, 0xff,
    0x57, 0x42, 0xaa, 0xbb, 0xcc, 0xdd,
    0x57, 0x42, 0xaa, 0xbb, 0xcc, 0xdd,
    0x00, 0x00]

  /** The link identity shifted up by a byte, in 32 bits, with the port below it. */
  function ChannelId(linkId: uint32, port: byte): uint32 {
    linkId * 256 % 0x1_0000_0000 + port
  }

  function ClassifyFrame(frame: seq<byte>, linkId: uint32): int {
    if |frame| < IEEE80211_HEADER_SIZE + FCS_SIZE then -1
    else if frame[0] != 0x08 || frame[1] != 0x01 then -1
    else if frame[SRC_MAC_OFFSET] != MAC_BYTE_0 || frame[SRC_MAC_OFFSET + 1] != MAC_BYTE_1
         || frame[DST_MAC_OFFSET] != MAC_BYTE_0 || frame[DST_MAC_OFFSET + 1] != MAC_BYTE_1 then -1
    else if frame[SRC_MAC_OFFSET + 2..][..4] != frame[DST_MAC_OFFSET + 2..][..4] then -1
    else
      var channel := ReadBe32(frame[SRC_MAC_OFFSET + 2], frame[SRC_MAC_OFFSET + 3],
                              frame[SRC_MAC_OFFSET + 4], frame[SRC_MAC_OFFSET + 5]);
      if channel / 256 != linkId then -1 else channel % 256
  }

  /** An address that carries the wfb marker and a channel. */
  function Address(channel: uint32): seq<byte> {
    [MAC_BYTE_0, MAC_BYTE_1] + Be32(channel)
  }

  function UplinkFrame(linkId: uint32, port: byte, payload: seq<byte>): seq<byte> {
    [0x08, 0x01, 0x00, 0x00, 0xff, 0xff, 0xff, 0xff, 0xff, 0xff]
    + Address(ChannelId(linkId, port)) + Address(ChannelId(linkId, port)) + [0x00, 0x00] + payload
  }

  /** The frame as the source builds it: a template with the channel copied over both
      addresses, and the payload appended. */
  method BuildUplink(linkId: uint32, port: byte, payload: seq<byte>) returns (frame: seq<byte>)
    ensures frame == UplinkFrame(linkId, port, payload)
  {
    var channelBytes := Be32(ChannelId(linkId, port));
    frame := IEEE80211_HEADER;
    frame := frame[..SRC_MAC_OFFSET + 2] + channelBytes + frame[SRC_MAC_OFFSET + 6..];
    frame := frame[..DST_MAC_OFFSET + 2] + channelBytes + frame[DST_MAC_OFFSET + 6..];
    frame := frame + payload;
  }

  /** What the receiver hands on: everything between the header and the FCS. */
  function PayloadSlice(frame: seq<byte>): seq<byte>
    requires |frame| >= IEEE80211_HEADER_SIZE + FCS_SIZE
  {
    frame[IEEE80211_HEADER_SIZE..|frame| - FCS_SIZE]
  }

  lemma ChannelParts(linkId: uint32, port: byte)
    ensures ChannelId(linkId, port) / 256 == linkId % LINK_IDS && ChannelId(linkId, port) % 256 == port
  {
    assert linkId * 256 % 0x1_0000_0000 == linkId % LINK_IDS * 256;
  }

  lemma FrameBytes(linkId: uint32, port: byte, payload: seq<byte>, fcs: seq<byte>)
    requires |fcs| == FCS_SIZE
    ensures var frame, channel := UplinkFrame(linkId, port, payload) + fcs, Be32(ChannelId(linkId, port));
            && |frame| == IEEE80211_HEADER_SIZE + |payload| + FCS_SIZE
            && frame[0] == 0x08 && frame[1] == 0x01
            && frame[10] == 0x57 && frame[11] == 0x42 && frame[16] == 0x57 && frame[17] == 0x42
            && frame[12..16] == channel && frame[18..22] == channel
            && PayloadSlice(frame) == payload
  {
    hide Be32, ChannelId;
  }

  /** Addressing: with any frame check sequence behind it, an uplink frame is taken
      for its port by exactly one link, the sender's identity modulo 2^24, and
      refused by every other; and exactly its payload is handed on. */
  lemma ClassifiesUplink(linkId: uint32, port: byte, payload: seq<byte>, fcs: seq<byte>, receiver: uint32)
    requires |fcs| == 4
    ensures var frame := UplinkFrame(linkId, port, payload) + fcs;
            && ClassifyFrame(frame, receiver) == (if receiver == linkId % LINK_IDS then port else -1)
            && |frame| >= IEEE80211_HEADER_SIZE + FCS_SIZE && PayloadSlice(frame) == payload
  {
    hide UplinkFrame, ChannelId;
    var frame, channel := UplinkFrame(linkId, port, payload) + fcs, ChannelId(linkId, port);
    FrameBytes(linkId, port, payload, fcs);
    ReadsBackBe32(channel);
    ChannelParts(linkId, port);
    var word := frame[12..16];
    assert frame[12..][..4] == word && frame[18..][..4] == frame[18..22];
    assert word[0] == frame[12] && word[1] == frame[13] && word[2] == frame[14] && word[3] == frame[15];
  }

  /** So a station hears itself exactly when its identity fits in 24 bits. */
  lemma HearsItselfExactly(linkId: uint32, port: byte, payload: seq<byte>, fcs: seq<byte>)
    requires |fcs| == 4
    ensures ClassifyFrame(UplinkFrame(linkId, port, payload) + fcs, linkId) == port <==> linkId < LINK_IDS
  {
    hide ClassifyFrame, UplinkFrame;
    ClassifiesUplink(linkId, port, payload, fcs, linkId);
    assert linkId == linkId % LINK_IDS <==> linkId < LINK_IDS;
  }

  /** The classifier takes nothing for its own but frames with both addresses written
      the way the uplink writes them for that link and port. */
  lemma AcceptsExactly(frame: seq<byte>, linkId: uint32, port: byte)
    ensures ClassifyFrame(frame, linkId) == port <==>
            && |frame| >= 28 && frame[..2] == [0x08, 0x01] && linkId < 0x100_0000
            && frame[10..16] == Address(ChannelId(linkId, port)) && frame[16..22] == Address(ChannelId(linkId, port))
  {
    if |frame| >= IEEE80211_HEADER_SIZE + FCS_SIZE {
      var src, dst, channel := frame[12..16], frame[18..22], ChannelId(linkId, port);
      assert frame[12..][..4] == src && frame[18..][..4] == dst;
      assert src == [frame[12], frame[13], frame[14], frame[15]];
      assert frame[..2] == [frame[0], frame[1]];
      assert frame[10..16] == [frame[10], frame[11]] + src && frame[16..22] == [frame[16], frame[17]] + dst;
      SameAddress(frame[10], frame[11], src, channel);
      SameAddress(frame[16], frame[17], dst, channel);
      WordBytes(frame[12], frame[13], frame[14], frame[15], src, channel);
      SameChannel(ReadBe32(frame[12], frame[13], frame[14], frame[15]), linkId, port);
      hide Address, Be32, ReadBe32, ChannelId;
    }
  }

  /** And everything else is refused. */
  lemma RefusesOthers(frame: seq<byte>, linkId: uint32)
    ensures ClassifyFrame(frame, linkId) == -1 || 0 <= ClassifyFrame(frame, linkId) < 256
    ensures ClassifyFrame(frame, linkId) >= 0 ==> |frame| >= 28 && PayloadSlice(frame) == frame[24..|frame| - 4]
  {
  }

  /** The uplink frame, byte by byte: a data frame to everybody, twice the marker and the
      channel - 24 bits of link, eight of port, most significant first - and the payload. */
  lemma UplinkBytes(linkId: uint32, port: byte, payload: seq<byte>)
    ensures var channel := [linkId / 0x1_0000 % 256, linkId / 256 % 256, linkId % 256, port];
            UplinkFrame(linkId, port, payload) ==
            [0x08, 0x01, 0, 0, 0xff, 0xff, 0xff, 0xff, 0xff, 0xff] + [0x57, 0x42] + channel + [0x57, 0x42] + channel
            + [0, 0] + payload
  {
    ChannelBytes(linkId, port);
    hide ChannelId, Be32;
  }

  lemma ChannelBytes(linkId: uint32, port: byte)
    ensures Be32(ChannelId(linkId, port)) == [linkId / 0x1_0000 % 256, linkId / 256 % 256, linkId % 256, port]
  {
    var top: int, x: int, y: int, z: int, p: int :=
      linkId / 0x100_0000, linkId / 0x1_0000 % 256, linkId / 256 % 256, linkId % 256, port;
    assert linkId == top * 0x100_0000 + x * 0x1_0000 + y * 256 + z;
    assert linkId * 256 % 0x1_0000_0000 == x * 0x100_0000 + y * 0x1_0000 + z * 256;
    assert ChannelId(linkId, port) == ReadBe32(x, y, z, p);
    hide ChannelId;
    WritesBackBe32(x, y, z, p);
  }

  lemma SameChannel(n: uint32, linkId: uint32, port: byte)
    ensures n / 256 == linkId && n % 256 == port <==> linkId < LINK_IDS && n == ChannelId(linkId, port)
  {
    ChannelParts(linkId, port);
    hide ChannelId;
    var channel := ChannelId(linkId, port);
    assert n == 256 * (n / 256) + n % 256 && channel == 256 * (channel / 256) + channel % 256;
    if n / 256 == linkId {
      assert linkId < LINK_IDS;
    }
  }

  lemma SameAddress(x: byte, y: byte, word: seq<byte>, channel: uint32)
    requires |word| == 4
    ensures [x, y] + word == Address(channel) <==> x == 0x57 && y == 0x42 && word == Be32(channel)
  {
    hide Be32;
    if [x, y] + word == Address(channel) {
      assert ([x, y] + word)[2..] == word && Address(channel)[2..] == Be32(channel);
      assert ([x, y] + word)[0] == x && ([x, y] + word)[1] == y;
    }
  }
}

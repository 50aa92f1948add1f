/** The outbound frame codec of udp/common.ts: the fixed 24/26-byte header
    written by constructRes and the length-prefixed, zero-terminated strings
    written by encString. */
module Frame {
  import opened Base

  const Magic: Bytes := [0x07, 0x02]
  const MaxMessageSize: nat := 1270
  const MaxUsersBroadcast: nat := 48
  /** Header length of a head (or only) fragment. */
  const HeaderLength: nat := 0x1A
  /** Header length of a continuation fragment. */
  const HeaderLengthMulti: nat := 0x18
  /** Separator written before the message type of a head fragment. */
  const TypeSeparator: Byte := 0x0D

  // Message types (client to server, then server to client).
  const C2SInit: Byte := 0x33
  const C2SUnk1: Byte := 0x34
  const C2SUnk2: Byte := 0x35
  const C2SUnk3: Byte := 0x37
  const C2SUnk4: Byte := 0x3c
  const S2CAckRoom: Byte := 0x7F
  const S2CListPlayers: Byte := 0x80
  const S2CUnk1: Byte := 0x85
  const S2CUnk2: Byte := 0x88

  /** Byte 15: bit 0 marks a continuation fragment, bit 4 a multi-fragment message. */
  function Flags(isMulti: bool, isChild: bool): Byte
  {
    (if isChild then 1 else 0) + 0x10 * (if isMulti then 1 else 0)
  }

  /** The low bit of the flags byte is the continuation bit. */
  lemma FlagsChildBit(isMulti: bool, isChild: bool)
    ensures (Flags(isMulti, isChild) % 2 == 1) == isChild
  {
    if isMulti {
      assert Flags(isMulti, isChild) == if isChild then 17 else 16;
    } else {
      assert Flags(isMulti, isChild) == if isChild then 1 else 0;
    }
  }

  /** The first 24 bytes of every frame: magic, account id, unk1, message
      id, two zero bytes, the flags, then eight zero bytes. */
  function Header(uid: Int64, unk1: Byte, msgId: U16, flags: Byte): (h: Bytes)
    ensures |h| == HeaderLengthMulti
  {
    Magic + I64LE(uid) + [unk1] + U16LE(msgId) + [0, 0, flags, 0, 0, 0, 0, 0, 0, 0, 0]
  }

  /** constructRes: a zero-filled buffer of HeaderLength + |data| bytes with
      the header fields written at their offsets; a head fragment also gets
      the separator and its type at 24-25 and the data from 26, a
      continuation fragment the data from 24. */
  function ConstructRes(msgType: Byte, uid: Int64, data: Bytes, unk1: Byte, msgId: U16,
                        isMulti: bool, isChild: bool): (r: Bytes)
    ensures |r| == HeaderLength + |data|
  {
    Header(uid, unk1, msgId, Flags(isMulti, isChild))
      + if isChild then data + [0, 0] else [TypeSeparator, msgType] + data
  }

  lemma HeaderLayout(uid: Int64, unk1: Byte, msgId: U16, flags: Byte)
    ensures var h := Header(uid, unk1, msgId, flags);
      && h[..2] == Magic
      && h[2..10] == I64LE(uid)
      && h[10] == unk1 && h[11..13] == U16LE(msgId)
      && h[13] == 0 && h[14] == 0 && h[15] == flags
      && forall i | 16 <= i < 24 :: h[i] == 0
  {
  }

  /** A byte string that starts with a header carries the header's fields
      at their offsets. */
  lemma HeaderFieldsAt(r: Bytes, uid: Int64, unk1: Byte, msgId: U16, flags: Byte)
    requires |r| >= HeaderLengthMulti && r[..HeaderLengthMulti] == Header(uid, unk1, msgId, flags)
    ensures r[..2] == Magic
    ensures ReadI64LE(r, 2) == uid
    ensures r[10] == unk1 && ReadU16LE(r, 11) == msgId
    ensures r[13] == 0 && r[14] == 0 && r[15] == flags
    ensures forall i | 16 <= i < 24 :: r[i] == 0
  {
    var h := Header(uid, unk1, msgId, flags);
    HeaderLayout(uid, unk1, msgId, flags);
    assert r[2..10] == h[2..10];
    ReadI64LEAt(r, 2, I64LE(uid));
    I64LERoundTrip(uid);
    assert r[11..13] == h[11..13];
    forall i | 16 <= i < 24
      ensures r[i] == 0
    {
      assert r[i] == h[i];
    }
  }

  /** The byte layout of a frame: every header field at its offset, and the
      separator, the type and the data where the fragment kind puts them. */
  lemma FrameLayout(msgType: Byte, uid: Int64, data: Bytes, unk1: Byte, msgId: U16,
                    isMulti: bool, isChild: bool)
    ensures var r := ConstructRes(msgType, uid, data, unk1, msgId, isMulti, isChild);
      && |r| == HeaderLength + |data|
      && r[..2] == Magic
      && ReadI64LE(r, 2) == uid
      && r[10] == unk1 && ReadU16LE(r, 11) == msgId
      && r[13] == 0 && r[14] == 0 && r[15] == Flags(isMulti, isChild)
      && (forall i | 16 <= i < 24 :: r[i] == 0)
      && (!isChild ==> r[24] == TypeSeparator && r[25] == msgType && r[26..] == data)
      && (isChild ==> r[24..24 + |data|] == data && r[24 + |data|..] == [0, 0])
  {
    var h := Header(uid, unk1, msgId, Flags(isMulti, isChild));
    var tail := if isChild then data + [0, 0] else [TypeSeparator, msgType] + data;
    var r := ConstructRes(msgType, uid, data, unk1, msgId, isMulti, isChild);
    assert r == h + tail;
    assert r[..24] == h && r[24..] == tail;
    HeaderFieldsAt(r, uid, unk1, msgId, Flags(isMulti, isChild));
    if isChild {
      assert r[24..24 + |data|] == tail[..|data|] == data;
      assert r[24 + |data|..] == tail[|data|..] == [0, 0];
    } else {
      assert r[24] == tail[0] && r[25] == tail[1];
      assert r[26..] == tail[2..] == data;
    }
  }

  lemma ReadI64LEAt(s: Bytes, at: nat, id: Bytes)
    requires at + 8 <= |s| && |id| == 8 && s[at..at + 8] == id
    ensures ReadI64LE(s, at) == ReadI64LE(id, 0)
  {
    assert id[0..8] == id;
  }

  /** The data a frame carries, as a receiver would take it: from offset 26
      of a head fragment, or the 24.. range of a continuation fragment less
      the two zero bytes that constructRes leaves at its end. */
  function CarriedData(f: Bytes): Bytes
    requires |f| >= HeaderLength
  {
    if f[15] % 2 == 1 then f[HeaderLengthMulti..|f| - 2] else f[HeaderLength..]
  }

  /** What constructRes writes is exactly what a receiver reads back out. */
  lemma CarriedDataOfFrame(msgType: Byte, uid: Int64, data: Bytes, unk1: Byte, msgId: U16,
                           isMulti: bool, isChild: bool)
    ensures CarriedData(ConstructRes(msgType, uid, data, unk1, msgId, isMulti, isChild)) == data
  {
    var h := Header(uid, unk1, msgId, Flags(isMulti, isChild));
    HeaderLayout(uid, unk1, msgId, Flags(isMulti, isChild));
    FlagsChildBit(isMulti, isChild);
    CarriedDataAfter(h, msgType, data, isChild);
  }

  lemma CarriedDataAfter(h: Bytes, msgType: Byte, data: Bytes, isChild: bool)
    requires |h| == HeaderLengthMulti && (h[15] % 2 == 1) == isChild
    ensures CarriedData(h + if isChild then data + [0, 0] else [TypeSeparator, msgType] + data) == data
  {
    var r := h + if isChild then data + [0, 0] else [TypeSeparator, msgType] + data;
    assert r[15] == h[15];
    if isChild {
      assert r[HeaderLengthMulti..|r| - 2] == data;
    } else {
      assert r[HeaderLength..] == data;
    }
  }

  /** encString: the length of the string plus its terminator as a
      little-endian u16, the bytes of the string, then one zero byte. */
  function EncString(s: Text): (r: Bytes)
    ensures |r| == |s| + 3
    ensures ReadU16LE(r, 0) == |s| + 1
    ensures r[2..|s| + 2] == s && r[|s| + 2] == 0
  {
    var r := U16LE(|s| + 1) + s + [0];
    assert r[2..|s| + 2] == s;
    r
  }
}

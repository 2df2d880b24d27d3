/** The frame both codecs share: a four-byte magic number, a payload, and the CRC of both. */
module Containers {
  import opened Base
  import opened Crc
  import opened LinearRegister

  function Wrap(magic: seq<Byte>, payload: seq<Byte>): seq<Byte>
  {
    Seal(magic + payload)
  }

  /** The bytes of a container between its magic number and its trailer. */
  function Inner(data: seq<Byte>): seq<Byte>
    requires |data| >= 8
  {
    data[4..|data| - 4]
  }

  predicate Framed(magic: seq<Byte>, data: seq<Byte>)
  {
    |data| >= 8 && data[..4] == magic && Sealed(data)
  }

  /** A byte string is the container of a payload exactly when it is framed around it. */
  lemma WrapMeans(magic: seq<Byte>, data: seq<Byte>, payload: seq<Byte>)
    requires |magic| == 4
    ensures |Wrap(magic, payload)| == 8 + |payload|
    ensures data == Wrap(magic, payload) <==> Framed(magic, data) && Inner(data) == payload
  {
    var body := magic + payload;
    SealIsSealed(body);
    if data == Wrap(magic, payload) {
      assert data[..4] == body[..4] == magic;
      assert Inner(data) == body[4..] == payload;
    }
    if Framed(magic, data) && Inner(data) == payload {
      SealedIsSeal(data);
      assert data[..|data| - 4] == data[..4] + Inner(data);
    }
  }

  /** No change within four consecutive bytes of a container leaves a container. */
  lemma ChangeUnwraps(magic: seq<Byte>, payload: seq<Byte>, e: seq<Byte>, i: nat, other: seq<Byte>)
    requires DifferOnlyIn(Wrap(magic, payload), e, i) && Wrap(magic, payload) != e
    ensures |e| >= 4 && !Sealed(e) && e != Wrap(magic, other)
  {
    SealIsSealed(magic + payload);
    SealIsSealed(magic + other);
    BurstBreaksSeal(Wrap(magic, payload), e, i);
  }

  /** The comparison of the stored trailer with the checksum of what stands before it. */
  method TrailerMatches(data: seq<Byte>) returns (ok: bool)
    requires |data| >= 4
    ensures ok <==> Sealed(data)
  {
    var n := |data| - 4;
    var stored := Stored(data[n], data[n + 1], data[n + 2], data[n + 3]);
    var checksum := Crc32(data[..n]);
    ok := stored == checksum;
  }
}

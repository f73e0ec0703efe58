/** The serial stream over Bluetooth: a message is cut into pieces, each piece is encoded in base 64 and
    sent as a notification, and the receiver glues the notifications together up to a zero byte. */
module BleSerial {
  import opened Bits
  import opened Wrappers
  import opened Base64

  type uint16 = x: int | 0 <= x < 0x1_0000

  /** What fits into a notification, rounded down to a multiple of four and one byte for the terminator of
      the encoder. The count is an unsigned 16-bit number, so that rounding zero down wraps around. */
  method ExchangeFunc(gattMtu: uint16) returns (mtu: uint16)
    ensures mtu % 4 == 1
    ensures gattMtu >= 4 ==> mtu <= gattMtu - 3 < mtu + 4
    ensures gattMtu < 4 ==> mtu == 65533
    ensures mtu >= 5 <==> gattMtu >= 8 || gattMtu < 4
  {
    mtu := (gattMtu - 3) % 65536;
    ghost var k, r := (mtu + 3) / 4, (mtu + 3) % 4;
    while mtu % 4 != 1
      invariant 0 <= r < 4 && (mtu as int) + 3 == 4 * k + r
      invariant gattMtu >= 4 ==> mtu >= 1 && mtu <= gattMtu - 3 < mtu + 4 - r
      invariant gattMtu < 4 ==> mtu == 0 || 65533 <= mtu
      decreases r
    {
      k, r := if mtu == 0 then k + 16384 else k, r - 1;
      mtu := if mtu == 0 then 65535 else mtu - 1;
    }
  }

  /** The notifications one after the other. */
  function Glued(chunks: seq<seq<byte>>): seq<byte> {
    if chunks == [] then [] else Glued(chunks[..|chunks| - 1]) + chunks[|chunks| - 1]
  }

  predicate AllFit(chunks: seq<seq<byte>>, mtu: nat) {
    forall i :: 0 <= i < |chunks| ==> 0 < |chunks[i]| <= mtu
  }

  /** All notifications but the last one are as long as they can be. */
  predicate AllFull(chunks: seq<seq<byte>>, size: nat) {
    forall i :: 0 <= i < |chunks| - 1 ==> |chunks[i]| == size
  }

  /** The system's encoder: it needs room for a terminator. */
  method Base64Encode(dlen: nat, src: seq<byte>) returns (ret: int, dst: seq<byte>)
    ensures ret == if |Encode(src)| + 1 <= dlen then 0 else -12
    ensures ret == 0 ==> dst == Encode(src)
  {
    dst := Encode(src);
    ret := if |dst| + 1 <= dlen then 0 else -12;
  }

  /** The bytes whose encoding is `n` characters long. */
  function DecodeLength(n: nat): nat {
    n * 3 / 4
  }

  lemma PieceIsWhole(mtu: nat, n: nat)
    requires mtu % 4 == 1
    ensures DecodeLength(mtu - 1) % 3 == 0
    ensures n <= DecodeLength(mtu - 1) ==> 4 * ((n + 2) / 3) + 1 <= mtu
    ensures n == DecodeLength(mtu - 1) ==> 4 * ((n + 2) / 3) == mtu - 1
    ensures mtu >= 5 ==> DecodeLength(mtu - 1) >= 3
  {
    var k := mtu / 4;
    assert mtu == 4 * k + 1;
    DivModUnique((mtu - 1) * 3, 4, 3 * k, 0);
    DivModUnique(3 * k, 3, k, 0);
    DivModUnique(3 * k + 2, 3, k, 2);
  }

  lemma WholeSum(a: nat, b: nat)
    requires a % 3 == 0 && b % 3 == 0
    ensures (a + b) % 3 == 0
  {
    DivModUnique(a + b, 3, a / 3 + b / 3, 0);
  }

  /** Sends a message. Encoded, the notifications together are the encoding of the whole message, and no
      piece is too long for the encoder; every notification carries something, and all but the last one carry
      as much as fits. The loop ends because the
      rounded size leaves room for at least three bytes. */
  method SerialSend(connected: bool, mtu: uint16, data: seq<byte>, useBase64: bool) returns (chunks: seq<seq<byte>>)
    requires mtu % 4 == 1 && mtu >= 5 && |data| < 0x1_0000
    ensures !connected ==> chunks == []
    ensures connected ==> Glued(chunks) == if useBase64 then Encode(data) else data
    ensures AllFit(chunks, mtu)
    ensures useBase64 ==> AllFit(chunks, mtu - 1)
    ensures AllFull(chunks, if useBase64 then mtu - 1 else mtu)
  {
    chunks := [];
    if !connected {
      return;
    }
    var decoded_chunk_size := DecodeLength(mtu - 1);
    hide DecodeLength;
    hide Encode;
    hide Sent;
    NothingSent(data, useBase64, mtu);
    var transactionLength := 0;
    var offset: uint16 := 0;
    while offset < |data|
      invariant offset <= |data| && Sent(chunks, data, offset, useBase64, mtu)
      decreases |data| - offset
    {
      var chunk;
      if useBase64 {
        SentWhole(chunks, data, offset, mtu);
        transactionLength, chunk := EncodePiece(mtu, data, offset, decoded_chunk_size);
      } else {
        transactionLength := if |data| - offset > mtu then mtu else |data| - offset;
        chunk := data[offset..offset + transactionLength];
      }
      SentMore(chunks, data, offset, useBase64, mtu, chunk, offset + transactionLength);
      chunks := chunks + [chunk];
      offset := offset + transactionLength;
    }
    AllSent(chunks, data, useBase64, mtu);
  }

  /** What has been sent of the message up to `offset`. */
  predicate Sent(chunks: seq<seq<byte>>, data: seq<byte>, offset: nat, useBase64: bool, mtu: uint16) {
    && offset <= |data| && AllFit(chunks, mtu)
    && (useBase64 ==> mtu > 0 && AllFit(chunks, mtu - 1) && (offset < |data| ==> offset % 3 == 0))
    && (Glued(chunks) == if useBase64 then Encode(data[..offset]) else data[..offset])
    && forall i :: 0 <= i < |chunks| && (i < |chunks| - 1 || offset < |data|) ==> |chunks[i]| == if useBase64 then mtu - 1 else mtu
  }

  lemma SentWhole(chunks: seq<seq<byte>>, data: seq<byte>, offset: nat, mtu: uint16)
    requires Sent(chunks, data, offset, true, mtu) && offset < |data|
    ensures offset % 3 == 0
  {
  }

  lemma SentMore(chunks: seq<seq<byte>>, data: seq<byte>, offset: nat, useBase64: bool, mtu: uint16, chunk: seq<byte>, n: nat)
    requires Sent(chunks, data, offset, useBase64, mtu) && offset < n <= |data| && 0 < |chunk| <= mtu
    requires useBase64 ==> |chunk| <= mtu - 1 && (n < |data| ==> n % 3 == 0) && Encode(data[..n]) == Encode(data[..offset]) + chunk
    requires !useBase64 ==> chunk == data[offset..n]
    requires n < |data| ==> |chunk| == if useBase64 then mtu - 1 else mtu
    ensures Sent(chunks + [chunk], data, n, useBase64, mtu)
  {
    hide Encode;
    hide Glued;
    hide AllFit;
    NextPiece(data, offset, n);
    OneMore(chunks, chunk, mtu);
    if useBase64 {
      OneMore(chunks, chunk, mtu - 1);
    }
  }

  lemma NothingSent(data: seq<byte>, useBase64: bool, mtu: uint16)
    requires mtu > 0
    ensures Sent([], data, 0, useBase64, mtu)
  {
    assert data[..0] == [];
  }

  lemma AllSent(chunks: seq<seq<byte>>, data: seq<byte>, useBase64: bool, mtu: uint16)
    requires Sent(chunks, data, |data|, useBase64, mtu)
    ensures Glued(chunks) == (if useBase64 then Encode(data) else data) && AllFit(chunks, mtu)
    ensures useBase64 ==> mtu > 0 && AllFit(chunks, mtu - 1)
    ensures AllFull(chunks, if useBase64 then mtu - 1 else mtu)
  {
    assert data[..|data|] == data;
  }

  lemma NextPiece(data: seq<byte>, i: nat, j: nat)
    requires i <= j <= |data|
    ensures data[..i] + data[i..j] == data[..j]
  {
  }

  lemma OneMore(chunks: seq<seq<byte>>, chunk: seq<byte>, mtu: nat)
    requires AllFit(chunks, mtu) && 0 < |chunk| <= mtu
    ensures AllFit(chunks + [chunk], mtu) && Glued(chunks + [chunk]) == Glued(chunks) + chunk
  {
    assert (chunks + [chunk])[..|chunks|] == chunks;
  }

  /** The next piece, and its encoding: as many bytes as the encoder has room for, or the rest. */
  method EncodePiece(mtu: uint16, data: seq<byte>, offset: nat, decoded_chunk_size: nat) returns (transactionLength: nat, chunk: seq<byte>)
    requires mtu % 4 == 1 && mtu >= 5 && decoded_chunk_size == DecodeLength(mtu - 1) && offset < |data| && offset % 3 == 0
    ensures 0 < transactionLength && offset + transactionLength <= |data| && 0 < |chunk| <= mtu - 1
    ensures offset + transactionLength < |data| ==> (offset + transactionLength) % 3 == 0 && |chunk| == mtu - 1
    ensures Encode(data[..offset + transactionLength]) == Encode(data[..offset]) + chunk
  {
    hide Encode;
    hide DecodeLength;
    transactionLength := if |data| - offset > decoded_chunk_size then decoded_chunk_size else |data| - offset;
    PieceIsWhole(mtu, transactionLength);
    WholeSum(offset, decoded_chunk_size);
    var piece := data[offset..offset + transactionLength];
    EncodedLength(piece);
    var ret;
    ret, chunk := Base64Encode(mtu, piece);
    assert ret == 0;
    EncodeConcat(data[..offset], piece);
    NextPiece(data, offset, offset + transactionLength);
  }

  // ---------------------------------------------------------------------------------------------
  // The receiver
  // ---------------------------------------------------------------------------------------------

  class Receiver {
    var incomingData: seq<byte>
    /** The messages that have been passed on. */
    var processed: seq<seq<byte>>

    constructor ()
      ensures incomingData == [] && processed == []
    {
      incomingData, processed := [], [];
    }

    /** A notification: the last byte tells whether the message is complete. */
    method HandleRx(data: seq<byte>)
      requires data != []
      modifies this
      ensures data[|data| - 1] == 0 ==>
        incomingData == [] && processed == old(processed) + [(old(incomingData) + data)[..|old(incomingData) + data| - 1]]
      ensures data[|data| - 1] != 0 ==> incomingData == old(incomingData) + data && processed == old(processed)
    {
      incomingData := incomingData + data;
      if data[|data| - 1] == 0 {
        incomingData := incomingData[..|incomingData| - 1];
        processed := processed + [incomingData];
        incomingData := [];
      }
    }

    /** Notifications of one message, whatever the way it was cut. */
    method HandleAll(chunks: seq<seq<byte>>)
      requires forall i :: 0 <= i < |chunks| ==> chunks[i] != [] && forall k :: 0 <= k < |chunks[i]| ==> chunks[i][k] != 0
      modifies this
      ensures incomingData == old(incomingData) + Glued(chunks) && processed == old(processed)
    {
      assert chunks[..|chunks|] == chunks;
      for i := 0 to |chunks|
        invariant incomingData == old(incomingData) + Glued(chunks[..i]) && processed == old(processed)
      {
        assert chunks[..i + 1][..i] == chunks[..i];
        HandleRx(chunks[i]);
      }
    }
  }

  lemma {:induction false} PartOfGlued(chunks: seq<seq<byte>>, i: nat, k: nat) returns (p: nat)
    requires i < |chunks| && k < |chunks[i]|
    ensures p < |Glued(chunks)| && Glued(chunks)[p] == chunks[i][k]
  {
    var m := |chunks| - 1;
    if i == m {
      p := |Glued(chunks[..m])| + k;
    } else {
      p := PartOfGlued(chunks[..m], i, k);
    }
  }

  lemma PiecesHaveNoZero(chunks: seq<seq<byte>>, data: seq<byte>)
    requires Glued(chunks) == Encode(data)
    ensures forall i, k :: 0 <= i < |chunks| && 0 <= k < |chunks[i]| ==> chunks[i][k] != 0
  {
    forall i, k | 0 <= i < |chunks| && 0 <= k < |chunks[i]|
      ensures chunks[i][k] != 0
    {
      var p := PartOfGlued(chunks, i, k);
      PaddingAtEnd(data);
    }
  }

  /** A heat map, and a zero byte in a notification of its own: the receiver passes its encoding on. */
  method SendHeatMap(receiver: Receiver, mtu: uint16, heatMap: seq<byte>)
    requires mtu % 4 == 1 && mtu >= 5 && receiver.incomingData == [] && |heatMap| < 0x1_0000
    modifies receiver
    ensures receiver.incomingData == [] && receiver.processed == old(receiver.processed) + [Encode(heatMap)]
  {
    hide Encode;
    var chunks := SerialSend(true, mtu, heatMap, true);
    PiecesHaveNoZero(chunks, heatMap);
    receiver.HandleAll(chunks);
    assert [] + Glued(chunks) == Encode(heatMap);
    var last := SerialSend(true, mtu, [0], false);
    OneNotification(last, mtu);
    receiver.HandleRx(last[0]);
    assert (Encode(heatMap) + [0])[..|Encode(heatMap) + [0]| - 1] == Encode(heatMap);
  }

  /** A single byte is sent in a single notification. */
  lemma OneNotification(chunks: seq<seq<byte>>, mtu: nat)
    requires Glued(chunks) == [0] && AllFit(chunks, mtu)
    ensures chunks == [[0]]
  {
    AtLeastOneEach(chunks, mtu);
    assert |chunks| == 1 && chunks == [chunks[0]];
    assert Glued(chunks) == Glued(chunks[..0]) + chunks[0];
    assert Glued(chunks[..0]) == [];
    assert [] + chunks[0] == chunks[0];
    assert chunks[0] == [0];
  }

  lemma {:induction false} AtLeastOneEach(chunks: seq<seq<byte>>, mtu: nat)
    requires AllFit(chunks, mtu)
    ensures |Glued(chunks)| >= |chunks|
  {
    if chunks != [] {
      AtLeastOneEach(chunks[..|chunks| - 1], mtu);
    }
  }

  /** Heat maps, each followed by a zero byte. The receiver passes on exactly the encodings of the heat
      maps, in order, and they decode to the heat maps. */
  method SendHeatMaps(receiver: Receiver, mtu: uint16, heatMaps: seq<seq<byte>>)
    requires mtu % 4 == 1 && mtu >= 5 && receiver.incomingData == []
    requires forall i :: 0 <= i < |heatMaps| ==> |heatMaps[i]| < 0x1_0000
    modifies receiver
    ensures receiver.incomingData == [] && old(receiver.processed) <= receiver.processed
    ensures Received(receiver.processed[old(|receiver.processed|)..], heatMaps)
  {
    hide Encode;
    hide Decode;
    ghost var before := receiver.processed;
    for i := 0 to |heatMaps|
      invariant receiver.incomingData == [] && before <= receiver.processed
      invariant Received(receiver.processed[|before|..], heatMaps[..i])
    {
      ghost var so := receiver.processed[|before|..];
      SendHeatMap(receiver, mtu, heatMaps[i]);
      DecodeEncode(heatMaps[i]);
      assert receiver.processed[|before|..] == so + [Encode(heatMaps[i])];
      assert heatMaps[..i + 1] == heatMaps[..i] + [heatMaps[i]];
    }
    assert heatMaps[..|heatMaps|] == heatMaps;
  }

  /** The messages are the encodings of the heat maps, and decode to them. */
  predicate Received(messages: seq<seq<byte>>, heatMaps: seq<seq<byte>>) {
    && |messages| == |heatMaps|
    && forall i :: 0 <= i < |messages| ==> messages[i] == Encode(heatMaps[i]) && Decode(messages[i]) == Some(heatMaps[i])
  }
}

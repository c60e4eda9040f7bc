/** Class `Msg`: a Z-Wave frame built in place, and the checksum test that the
    driver applies to frames it receives. */
module ZWaveMsg {

  const SOF: bv8 := 0x01
  const FUNC_ID_ZW_SEND_DATA: bv8 := 0x13
  const MULTI_INSTANCE_CLASS: bv8 := 0x60
  const MULTI_INSTANCE_ENCAP: bv8 := 0x06
  const MULTI_CHANNEL_ENCAP: bv8 := 0x0d
  const MAX_TRIES: nat := 1
  const MAX_MAX_TRIES: nat := 7
  const FIRST_CALLBACK_ID: bv8 := 10

  /** Node numbers are bytes. */
  type NodeId = n: nat | n < 256

  /** Which encapsulation `SetInstance` has asked for. */
  datatype Encapsulation = Plain | MultiChannel(endPoint: bv8) | MultiInstance(instance: bv8)

  // ---- frames as sequences of bytes ----

  /** The exclusive or of some bytes, starting from 0xff. */
  function Xor(s: seq<bv8>): bv8 {
    if s == [] then 0xff else Xor(s[..|s| - 1]) ^ s[|s| - 1]
  }

  /** The bytes that the encapsulation inserts behind the length of the payload. */
  function Header(e: Encapsulation): seq<bv8> {
    match e
    case Plain => []
    case MultiChannel(endPoint) => [MULTI_INSTANCE_CLASS, MULTI_CHANNEL_ENCAP, 1, endPoint]
    case MultiInstance(instance) => [MULTI_INSTANCE_CLASS, MULTI_INSTANCE_ENCAP, instance]
  }

  /** The length of the header as the byte that is added to the payload's length. */
  function HeaderSize(e: Encapsulation): bv8 { if e.Plain? then 0 else if e.MultiChannel? then 4 else 3 }

  /** `MultiEncap`: only messages that send data to a node are wrapped. */
  function Encapsulated(body: seq<bv8>, e: Encapsulation): seq<bv8>
    requires |body| >= 4
  {
    if e.Plain? || body[3] != FUNC_ID_ZW_SEND_DATA || |body| < 6 then body
    else body[..5] + [body[5] + HeaderSize(e)] + Header(e) + body[6..]
  }

  /** Takes the inserted bytes out again. */
  function Decapsulated(body: seq<bv8>, e: Encapsulation): seq<bv8>
    requires |body| >= 6 + |Header(e)|
  {
    body[..5] + [body[5] - HeaderSize(e)] + body[6 + |Header(e)|..]
  }

  /** A frame must fit the one-byte length of its message object. */
  predicate Framable(payload: seq<bv8>, callback: bool) {
    4 <= |payload| && |payload| + (if callback then 2 else 1) <= 255
  }

  function Checked(unchecked: seq<bv8>): seq<bv8>
    requires |unchecked| >= 1
  {
    unchecked + [Xor(unchecked[1..])]
  }

  /** A payload with its length byte, its callback id if it has one, and its checksum. */
  function Frame(payload: seq<bv8>, callback: bool, id: bv8): (f: seq<bv8>)
    requires Framable(payload, callback)
    ensures |f| == |payload| + if callback then 2 else 1
  {
    Checked(Unchecked(payload, callback, id))
  }

  function Unchecked(payload: seq<bv8>, callback: bool, id: bv8): seq<bv8>
    requires Framable(payload, callback)
  {
    payload[1 := LengthByte(payload, callback)] + if callback then [id] else []
  }

  function LengthByte(payload: seq<bv8>, callback: bool): bv8
    requires Framable(payload, callback)
  {
    (if callback then |payload| else |payload| - 1) as bv8
  }

  /** The part of `ReadMsg` that follows the length byte. */
  predicate Accepts(frame: seq<bv8>) {
    |frame| >= 3 && |frame| == frame[1] as int + 2 && ChecksumFits(frame)
  }

  predicate ChecksumFits(frame: seq<bv8>)
    requires |frame| >= 3
  {
    frame[|frame| - 1] == Xor(frame[1..|frame| - 1])
  }

  // ---- the frame theorems ----

  /** A finished frame announces its own length and passes the receiver's test. */
  lemma FrameAccepted(payload: seq<bv8>, callback: bool, id: bv8)
    requires Framable(payload, callback)
    ensures
      var f := Frame(payload, callback, id);
      Accepts(f) && |f| == f[1] as int + 2 && f[0] == payload[0]
  {
    var u := Unchecked(payload, callback, id);
    var f := Checked(u);
    ByteRoundTrip(if callback then |payload| else |payload| - 1);
    assert u[1] == LengthByte(payload, callback);
    assert f[..|u|] == u;
    assert f[1..|u|] == u[1..];
  }

  lemma ByteRoundTrip(n: nat)
    requires n < 256
    ensures (n as bv8) as int == n
  {
    assert n % 256 == n;
  }

  lemma {:induction false} XorUpdate(s: seq<bv8>, i: nat, b: bv8)
    requires i < |s|
    ensures Xor(s[i := b]) == Xor(s) ^ s[i] ^ b
  {
    var init, last := s[..|s| - 1], s[|s| - 1];
    if i == |s| - 1 {
      assert s[i := b][..|s| - 1] == init;
      XorCancel(Xor(init), last, b);
    } else {
      XorUpdate(init, i, b);
      assert s[i := b][..|s| - 1] == init[i := b];
      XorSwap(Xor(init), s[i], b, last);
    }
  }

  lemma XorCancel(a: bv8, x: bv8, b: bv8)
    ensures a ^ x ^ x ^ b == a ^ b
  {
  }

  lemma XorSwap(a: bv8, x: bv8, b: bv8, y: bv8)
    ensures (a ^ x ^ b) ^ y == (a ^ y) ^ x ^ b
  {
  }

  lemma XorDiffers(a: bv8, x: bv8, b: bv8)
    requires x != b
    ensures a ^ x ^ b != a
  {
  }

  lemma SliceUpdated(s: seq<bv8>, i: nat, b: bv8, n: nat)
    requires 1 <= i < n <= |s|
    ensures s[i := b][1..n] == s[1..n][i - 1 := b]
  {
  }

  /** Damage to any one byte behind the length is noticed. */
  lemma DamageDetected(frame: seq<bv8>, i: nat, b: bv8)
    requires Accepts(frame) && 2 <= i < |frame| && b != frame[i]
    ensures !Accepts(frame[i := b])
  {
    hide Xor;
    if i < |frame| - 1 { DamageInside(frame, i, b); } else { ChecksumDamaged(frame, b); }
  }

  lemma DamageInside(frame: seq<bv8>, i: nat, b: bv8)
    requires |frame| >= 3 && ChecksumFits(frame) && 1 <= i < |frame| - 1 && b != frame[i]
    ensures !ChecksumFits(frame[i := b])
  {
    hide Xor;
    var n := |frame| - 1;
    var inside := frame[1..n];
    assert inside[i - 1] == frame[i];
    SliceUpdated(frame, i, b, n);
    XorUpdate(inside, i - 1, b);
    XorDiffers(Xor(inside), inside[i - 1], b);
  }

  lemma ChecksumDamaged(frame: seq<bv8>, b: bv8)
    requires |frame| >= 3 && ChecksumFits(frame) && b != frame[|frame| - 1]
    ensures !ChecksumFits(frame[|frame| - 1 := b])
  {
    hide Xor;
    assert frame[|frame| - 1 := b][1..|frame| - 1] == frame[1..|frame| - 1];
  }

  /** Undoing the insertion recovers the message as it was. */
  lemma EncapsulationUndone(body: seq<bv8>, e: Encapsulation)
    requires |body| >= 6 && body[3] == FUNC_ID_ZW_SEND_DATA
    ensures |Encapsulated(body, e)| == |body| + |Header(e)|
    ensures Decapsulated(Encapsulated(body, e), e) == body
  {
    var wrapped, n := Encapsulated(body, e), |Header(e)|;
    ByteSub(body[5], HeaderSize(e));
    if !e.Plain? {
      assert wrapped[5] == body[5] + HeaderSize(e);
      assert wrapped[6 + n..] == body[6..];
      assert wrapped[..5] == body[..5];
    }
  }

  /** Behind the length of the command stand the multi-channel class, its command and
      the instance, for a channel between the source and the destination end point. */
  lemma EncapsulationBytes(msgType: bv8, node: bv8, n: bv8, command: seq<bv8>, x: bv8)
    ensures
      var head: seq<bv8> := [0x01, 0x00, msgType, 0x13, node];
      && Encapsulated(head + [n] + command, MultiChannel(x)) == head + [n + 4, 0x60, 0x0D, 0x01, x] + command
      && Encapsulated(head + [n] + command, MultiInstance(x)) == head + [n + 3, 0x60, 0x06, x] + command
  {
    var head: seq<bv8> := [0x01, 0x00, msgType, 0x13, node];
    var body := head + [n] + command;
    assert body[..5] == head && body[5] == n && body[6..] == command;
    assert head + [n + 4] + Header(MultiChannel(x)) == head + [n + 4, 0x60, 0x0D, 0x01, x];
    assert head + [n + 3] + Header(MultiInstance(x)) == head + [n + 3, 0x60, 0x06, x];
  }

  lemma ByteSub(x: bv8, n: bv8)
    ensures x + n - n == x && x - 0 == x
  {
  }

  /** The payload can be read off a frame, up to the length byte that the frame sets. */
  lemma PayloadRecovered(payload: seq<bv8>, callback: bool, id: bv8)
    requires Framable(payload, callback)
    ensures
      var f := Frame(payload, callback, id);
      f[..|f| - if callback then 2 else 1][1 := payload[1]] == payload
  {
  }

  /** Only the last byte before the checksum differs between ids. */
  lemma UncheckedOfId(payload: seq<bv8>, oldId: bv8, id: bv8)
    requires Framable(payload, true)
    ensures Unchecked(payload, true, id) == Unchecked(payload, true, oldId)[..|payload|] + [id]
  {
  }

  // ---- the objects ----

  /** The static counter `s_nextCallbackId`; ids below 10 are reserved. */
  class CallbackCounter {
    var next: bv8

    ghost predicate Valid() reads this { next == 0 || next >= FIRST_CALLBACK_ID }

    constructor ()
      ensures Valid() && next == FIRST_CALLBACK_ID
    {
      next := FIRST_CALLBACK_ID;
    }

    /** The id that is given out next. */
    function Upcoming(): (id: bv8)
      requires Valid()
      reads this
      ensures id >= FIRST_CALLBACK_ID
    {
      if next == 0 then FIRST_CALLBACK_ID else next
    }

    method Take() returns (id: bv8)
      requires Valid()
      modifies this
      ensures Valid() && id == old(Upcoming())
      ensures next == old(Upcoming()) + 1
    {
      if next == 0 { next := FIRST_CALLBACK_ID; }
      id := next;
      next := next + 1;
    }
  }

  class Msg {
    const targetNodeId: NodeId
    const callbackRequired: bool
    const expectedReply: bv8
    const buffer: array<bv8>
    var expectedCommandClassId: bv8
    var multiChannel: bool
    var multiInstance: bool
    var instance: bv8
    var endPoint: bv8
    var final: bool
    var callbackId: bv8
    var length: nat
    var sendAttempts: nat
    var maxSendAttempts: nat
    /** The bytes that the frame of a finished message carries. */
    ghost var payload: seq<bv8>

    /** Before `Finalize` the buffer holds a body; afterwards the frame of its payload. */
    ghost predicate Valid()
      reads this`length, this`maxSendAttempts, this`final, this`payload, this`callbackId, buffer
    {
      && buffer.Length == 256 && 4 <= length <= 255
      && maxSendAttempts < MAX_MAX_TRIES
      && (final ==>
            && Framable(payload, callbackRequired)
            && buffer[..length] == Frame(payload, callbackRequired, callbackId)
            && (if callbackRequired then callbackId >= FIRST_CALLBACK_ID else callbackId == 0))
      && (!final ==> callbackId == 0)
    }

    constructor (targetNodeId: NodeId, msgType: bv8, function_: bv8, callbackRequired: bool, replyRequired: bool,
                 expectedReply: bv8, expectedCommandClassId: bv8)
      ensures Valid() && !final && buffer[..length] == [SOF, 0, msgType, function_]
      ensures fresh(buffer) && sendAttempts == 0 && maxSendAttempts == MAX_TRIES && Wrapping() == Plain
      ensures this.targetNodeId == targetNodeId && this.callbackRequired == callbackRequired
      ensures this.expectedCommandClassId == expectedCommandClassId
      ensures this.expectedReply
              == if !replyRequired then 0 else if expectedReply != 0 then expectedReply else function_
    {
      this.targetNodeId, this.callbackRequired := targetNodeId, callbackRequired;
      this.expectedReply := if !replyRequired then 0 else if expectedReply != 0 then expectedReply else function_;
      this.expectedCommandClassId := expectedCommandClassId;
      multiChannel, multiInstance, instance, endPoint := false, false, 1, 0;
      final, callbackId, length := false, 0, 4;
      sendAttempts, maxSendAttempts := 0, MAX_TRIES;
      payload := [];
      var bytes := new bv8[256];
      bytes[0], bytes[1], bytes[2], bytes[3] := SOF, 0, msgType, function_;
      buffer := bytes;
      new;
      assert buffer[..4] == [SOF, 0, msgType, function_];
    }

    /** The encapsulation that the flags ask for. */
    function Wrapping(): Encapsulation
      reads this`multiChannel, this`multiInstance, this`instance, this`endPoint
    {
      if multiChannel then MultiChannel(endPoint) else if multiInstance then MultiInstance(instance) else Plain
    }

    /** `SetInstance` for a node that has the MultiInstance class in the given
        version; the end point is the one of the instance. */
    method SetInstance(version: nat, instance: bv8, endPoint: bv8)
      requires Valid() && !final
      modifies this`multiChannel, this`multiInstance, this`instance, this`endPoint, this`expectedCommandClassId
      ensures Valid()
      ensures version > 1 && endPoint != 0 ==> Wrapping() == MultiChannel(endPoint)
      ensures version > 1 && endPoint == 0 && old(multiChannel) ==> Wrapping() == MultiChannel(0)
      ensures version <= 1 && old(multiChannel) ==> Wrapping() == old(Wrapping())
      ensures version <= 1 && instance > 1 && !old(multiChannel) ==> Wrapping() == MultiInstance(instance)
      ensures !old(multiChannel) && (if version > 1 then endPoint == 0 else instance <= 1) ==>
                Wrapping() == if old(multiInstance) then MultiInstance(instance) else Plain
      ensures multiChannel == (old(multiChannel) || (version > 1 && endPoint != 0))
      ensures multiInstance == (old(multiInstance) || (version <= 1 && instance > 1))
      ensures expectedCommandClassId ==
              if (if version > 1 then endPoint != 0 else instance > 1) then MULTI_INSTANCE_CLASS
              else old(expectedCommandClassId)
    {
      this.instance := instance;
      if version > 1 {
        this.endPoint := endPoint;
        if endPoint != 0 {
          multiChannel := true;
          expectedCommandClassId := MULTI_INSTANCE_CLASS;
        }
      } else if instance > 1 {
        multiInstance := true;
        expectedCommandClassId := MULTI_INSTANCE_CLASS;
      }
    }

    /** The length is a byte: the 256th byte of a message sets it to zero. */
    method Append(data: bv8)
      requires Valid() && !final
      modifies this`length, buffer
      ensures buffer[..old(length) + 1] == old(buffer[..length]) + [data]
      ensures if old(length) < 255 then Valid() && length == old(length) + 1 else length == 0
    {
      buffer[length] := data;
      length := (length + 1) % 256;
    }

    /** A wrapped message holds the length of its payload, which the wrapping changes. */
    ghost predicate Wrappable()
      requires Valid()
      reads this, buffer
    {
      Wrapping() != Plain && buffer[3] == FUNC_ID_ZW_SEND_DATA ==> length >= 6
    }

    /** The length that `Finalize` will give the frame. */
    ghost function FinalLength(): nat
      requires Valid()
      reads this, buffer
    {
      |Encapsulated(buffer[..length], Wrapping())| + if callbackRequired then 2 else 1
    }

    method MultiEncap()
      requires Valid() && !final && Wrapping() != Plain && Wrappable()
      requires |Encapsulated(buffer[..length], Wrapping())| <= 254
      modifies this`length, buffer
      ensures Valid() && buffer[..length] == Encapsulated(old(buffer[..length]), Wrapping())
    {
      if buffer[3] != FUNC_ID_ZW_SEND_DATA { return; }
      hide Encapsulated, Header, Frame, Framable;
      EncapsulatedAt(buffer[..length], Wrapping());
      if multiChannel { WrapChannel(); } else { WrapInstance(); }
    }

    method WrapChannel()
      requires buffer.Length == 256 && 6 <= length <= 252 && multiChannel && buffer[3] == FUNC_ID_ZW_SEND_DATA
      modifies this`length, buffer
      ensures length == old(length) + 4 && buffer[..length] == Encapsulated(old(buffer[..length]), Wrapping())
    {
      hide Encapsulated;
      ghost var body := buffer[..length];
      ghost var wrapped := Encapsulated(body, Wrapping());
      EncapsulatedAt(body, Wrapping());
      Shift(4);
      buffer[5] := buffer[5] + 4;
      buffer[6] := MULTI_INSTANCE_CLASS;
      buffer[7] := MULTI_CHANNEL_ENCAP;
      buffer[8] := 1;
      buffer[9] := endPoint;
      length := length + 4;
      forall k | 0 <= k < length ensures buffer[k] == wrapped[k] {
        if k >= 10 { assert buffer[k] == body[k - 4]; }
      }
    }

    method WrapInstance()
      requires buffer.Length == 256 && 6 <= length <= 253 && !multiChannel && multiInstance
               && buffer[3] == FUNC_ID_ZW_SEND_DATA
      modifies this`length, buffer
      ensures length == old(length) + 3 && buffer[..length] == Encapsulated(old(buffer[..length]), Wrapping())
    {
      hide Encapsulated;
      ghost var body := buffer[..length];
      ghost var wrapped := Encapsulated(body, Wrapping());
      EncapsulatedAt(body, Wrapping());
      Shift(3);
      buffer[5] := buffer[5] + 3;
      buffer[6] := MULTI_INSTANCE_CLASS;
      buffer[7] := MULTI_INSTANCE_ENCAP;
      buffer[8] := instance;
      length := length + 3;
      forall k | 0 <= k < length ensures buffer[k] == wrapped[k] {
        if k >= 9 { assert buffer[k] == body[k - 3]; }
      }
    }

    lemma EncapsulatedAt(body: seq<bv8>, e: Encapsulation)
      requires |body| >= 6 && body[3] == FUNC_ID_ZW_SEND_DATA && !e.Plain?
      ensures
        var wrapped, n := Encapsulated(body, e), |Header(e)|;
        && |wrapped| == |body| + n && n == (if e.MultiChannel? then 4 else 3)
        && (forall k | 0 <= k < 5 :: wrapped[k] == body[k])
        && wrapped[5] == body[5] + HeaderSize(e)
        && (forall k | 6 <= k < 6 + n :: wrapped[k] == Header(e)[k - 6])
        && (forall k | 6 + n <= k < |wrapped| :: wrapped[k] == body[k - n])
    {
    }

    /** The loop of `MultiEncap`: moves the bytes from index 6 on by `n` places, last first. */
    method Shift(n: nat)
      requires buffer.Length == 256 && 6 <= length && length + n <= 256 && n > 0
      modifies buffer
      ensures forall k | 0 <= k < 6 :: buffer[k] == old(buffer[k])
      ensures forall k | 6 + n <= k < length + n :: buffer[k] == old(buffer[k - n])
    {
      var i := length;
      while i > 6
        invariant 6 <= i <= length
        invariant forall k | 0 <= k < i :: buffer[k] == old(buffer[k])
        invariant forall k | i + n <= k < length + n :: buffer[k] == old(buffer[k - n])
      {
        i := i - 1;
        buffer[i + n] := buffer[i];
      }
    }

    /** The checksum loop, over the bytes from the length byte up to `end`. */
    method Checksum(end: nat) returns (checksum: bv8)
      requires 1 <= end <= buffer.Length
      ensures checksum == Xor(buffer[1..end])
    {
      checksum := 0xff;
      var i := 1;
      while i < end
        invariant 1 <= i <= end
        invariant checksum == Xor(buffer[1..i])
      {
        assert buffer[1..i + 1][..i - 1] == buffer[1..i];
        checksum := checksum ^ buffer[i];
        i := i + 1;
      }
    }

    /** Puts the checksum behind the first `end` bytes. */
    method Seal(end: nat)
      requires 1 <= end < buffer.Length
      modifies buffer
      ensures buffer[..end + 1] == Checked(old(buffer[..end]))
    {
      hide Xor;
      ghost var unchecked := buffer[..end];
      assert unchecked[1..] == buffer[1..end];
      var checksum := Checksum(end);
      buffer[end] := checksum;
      assert buffer[..end + 1] == unchecked + [checksum];
    }

    /** What the message says once it is finished. */
    ghost function Said(): seq<bv8>
      requires Valid()
      reads this, buffer
    {
      if final then payload else Encapsulated(buffer[..length], Wrapping())
    }

    method Finalize(ids: CallbackCounter)
      requires Valid() && ids.Valid()
      requires !final ==> FinalLength() <= 255 && Wrappable()
      modifies this`length, this`final, this`callbackId, this`payload, buffer, ids
      ensures Valid() && ids.Valid() && final
      ensures old(final) ==> length == old(length) && buffer[..] == old(buffer[..])
      ensures old(final) ==> callbackId == old(callbackId) && payload == old(payload)
      ensures !old(final) ==> payload == Encapsulated(old(buffer[..length]), Wrapping())
      ensures payload == old(Said())
      ensures !old(final) && callbackRequired ==> callbackId == old(ids.Upcoming())
      ensures old(final) || !callbackRequired ==> ids.next == old(ids.next)
    {
      hide Xor, Encapsulated, Unchecked, Wrapping;
      if final { return; }
      Wrap();
      payload := buffer[..length];
      SetLengthAndId(ids);
      Seal(length);
      length := length + 1;
      final := true;
    }

    /** The encapsulation, if one is asked for. */
    method Wrap()
      requires Valid() && !final && FinalLength() <= 255 && Wrappable()
      modifies this`length, buffer
      ensures Valid() && buffer[..length] == Encapsulated(old(buffer[..length]), Wrapping())
              && Framable(buffer[..length], callbackRequired)
    {
      hide Encapsulated;
      if multiChannel || multiInstance { MultiEncap(); } else { PlainIsUnchanged(buffer[..length]); }
    }

    /** The length byte and the callback id of `Finalize`. */
    method SetLengthAndId(ids: CallbackCounter)
      requires buffer.Length == 256 && 4 <= length <= 255 && callbackId == 0 && ids.Valid()
      requires payload == buffer[..length] && Framable(payload, callbackRequired)
      modifies this`length, this`callbackId, buffer, ids
      ensures ids.Valid() && length == |payload| + (if callbackRequired then 1 else 0)
      ensures buffer[..length] == Unchecked(payload, callbackRequired, callbackId)
      ensures callbackId == if callbackRequired then old(ids.Upcoming()) else 0
      ensures !callbackRequired ==> ids.next == old(ids.next)
    {
      hide LengthByte, Unchecked;
      ghost var b := LengthByte(payload, callbackRequired);
      LengthByteIs(payload, callbackRequired);
      if callbackRequired {
        var id := ids.Take();
        UncheckedIs(payload, true, id);
        buffer[1] := length as bv8;
        buffer[length] := id;
        length := length + 1;
        callbackId := id;
        assert buffer[..length] == payload[1 := b] + [id];
      } else {
        UncheckedIs(payload, false, 0);
        buffer[1] := (length - 1) as bv8;
        assert buffer[..length] == payload[1 := b];
      }
    }

    lemma LengthByteIs(payload: seq<bv8>, callback: bool)
      requires Framable(payload, callback)
      ensures LengthByte(payload, callback) == (if callback then |payload| else |payload| - 1) as bv8
    {
    }

    lemma UncheckedIs(payload: seq<bv8>, callback: bool, id: bv8)
      requires Framable(payload, callback)
      ensures Unchecked(payload, callback, id)
              == if callback then payload[1 := LengthByte(payload, true)] + [id]
                 else payload[1 := LengthByte(payload, false)]
    {
    }

    lemma PlainIsUnchanged(body: seq<bv8>)
      requires |body| >= 4
      ensures Encapsulated(body, Plain) == body
    {
    }

    method UpdateCallbackId(ids: CallbackCounter)
      requires Valid() && final && ids.Valid()
      modifies this`callbackId, buffer, ids
      ensures Valid() && ids.Valid()
      ensures callbackId == if callbackRequired then old(ids.Upcoming()) else old(callbackId)
      ensures !callbackRequired ==> buffer[..] == old(buffer[..]) && ids.next == old(ids.next)
    {
      hide Xor;
      if callbackRequired {
        ghost var u := Unchecked(payload, true, callbackId);
        assert buffer[..length][..length - 1] == u;
        var id := ids.Take();
        buffer[length - 2] := id;
        callbackId := id;
        UncheckedOfId(payload, old(callbackId), id);
        assert buffer[..length - 1] == u[..|payload|] + [id];
        Seal(length - 1);
      }
    }

    method SetSendAttempts(count: nat)
      modifies this`sendAttempts
      ensures sendAttempts == count
    {
      sendAttempts := count;
    }

    /** The limit itself is limited. */
    method SetMaxSendAttempts(count: nat)
      requires Valid()
      modifies this`maxSendAttempts
      ensures Valid() && maxSendAttempts == if count < MAX_MAX_TRIES then count else old(maxSendAttempts)
    {
      if count < MAX_MAX_TRIES { maxSendAttempts := count; }
    }

    predicate IsWakeUpNoMoreInformationCommand()
      requires buffer.Length == 256
      reads this`final, this`length, buffer
    {
      final && length == 11 && buffer[3] == 0x13 && buffer[6] == 0x84 && buffer[7] == 0x08
    }

    predicate IsNoOperation()
      requires buffer.Length == 256
      reads this`final, this`length, buffer
    {
      final && length == 11 && buffer[3] == 0x13 && buffer[6] == 0x00 && buffer[7] == 0x00
    }

    /** `operator==`: everything but the callback id and the checksum. */
    predicate Matches(other: Msg)
      requires buffer.Length == other.buffer.Length == 256 && 4 <= length <= 256
      reads this`final, this`length, buffer, other`final, other`length, other.buffer
    {
      && final && other.final
      && var n := length - if callbackRequired then 2 else 1;
         buffer[..n] == other.buffer[..n]
    }

    /** What `operator==` says of two finished messages. */
    lemma MatchesExactly(other: Msg)
      requires Valid() && other.Valid() && final && other.final
      ensures Matches(other) <==>
                Alike(payload, callbackRequired, other.payload, other.callbackRequired, other.callbackId)
    {
      hide Xor, Frame, LengthByte;
      var p, q := payload, other.payload;
      FrameStart(p, callbackRequired, callbackId);
      FrameStart(q, other.callbackRequired, other.callbackId);
      LengthByteSame(p, callbackRequired, q, other.callbackRequired);
      forall i | 0 <= i < |p| ensures buffer[i] == if i == 1 then LengthByte(p, callbackRequired) else p[i] {
        assert buffer[i] == buffer[..length][i];
      }
      forall i | 0 <= i < |q|
        ensures other.buffer[i] == if i == 1 then LengthByte(q, other.callbackRequired) else q[i]
      {
        assert other.buffer[i] == other.buffer[..other.length][i];
      }
      if other.callbackRequired {
        IdBehind(q, other.callbackId);
        assert other.buffer[|q|] == other.buffer[..other.length][|q|];
      }
      if Matches(other) {
        forall i | 0 <= i < |p| ensures buffer[i] == other.buffer[i] {
          assert buffer[..|p|][i] == other.buffer[..|p|][i];
        }
        assert buffer[1] == other.buffer[1];
      }
    }

    lemma IdFits()
      requires Valid()
      ensures !callbackRequired ==> callbackId == 0
    {
    }

    lemma Extent()
      requires Valid() && final
      ensures buffer.Length == 256 && 4 <= length <= 255
    {
    }

    lemma IdBehind(payload: seq<bv8>, id: bv8)
      requires Framable(payload, true)
      ensures Frame(payload, true, id)[|payload|] == id
    {
      hide Xor;
    }

    lemma FrameStart(payload: seq<bv8>, callback: bool, id: bv8)
      requires Framable(payload, callback)
      ensures forall i | 0 <= i < |payload| ::
        Frame(payload, callback, id)[i] == if i == 1 then LengthByte(payload, callback) else payload[i]
    {
      hide Xor;
    }

    lemma LengthByteSame(p: seq<bv8>, callback: bool, q: seq<bv8>, otherCallback: bool)
      requires Framable(p, callback) && Framable(q, otherCallback)
      ensures LengthByte(p, callback) == LengthByte(q, otherCallback)
              <==> |p| + (if callback then 1 else 0) == |q| + if otherCallback then 1 else 0
    {
      var m, n := if callback then |p| else |p| - 1, if otherCallback then |q| else |q| - 1;
      assert LengthByte(p, callback) == m as bv8 && LengthByte(q, otherCallback) == n as bv8;
      hide LengthByte;
      BytesDiffer(m, n);
    }

    lemma BytesDiffer(m: nat, n: nat)
      requires m < 256 && n < 256
      ensures m as bv8 == n as bv8 <==> m == n
    {
      ByteRoundTrip(m);
      ByteRoundTrip(n);
    }
  }

  /** Messages of one kind are alike exactly if they carry the same payload, whatever
      their callback ids. One with a callback id is like one without whose payload has
      one byte more, which is not looked at; the other way round that byte is
      compared with the id of the other. */
  ghost predicate Alike(p: seq<bv8>, callback: bool, q: seq<bv8>, otherCallback: bool, otherId: bv8) {
    if callback == otherCallback then SamePayload(p, q)
    else if callback then |q| == |p| + 1 && SamePayload(p, q[..|p|])
    else |p| == |q| + 1 && SamePayload(p[..|q|], q) && p[|q|] == otherId
  }

  /** Two messages that `operator==` takes for the same and that say different things:
      the second one carries one byte more. */
  method Mistaken() returns (a: Msg, b: Msg)
    ensures a.Valid() && b.Valid() && a.final && b.final && a.Matches(b)
    ensures |b.payload| == |a.payload| + 1 && !SamePayload(a.payload, b.payload)
  {
    hide Xor, Frame, Encapsulated, Framable, Msg.Valid, Msg.Matches;
    var ids := new CallbackCounter();
    a := Finished(ids, true, []);
    b := Finished(ids, false, [0x01]);
    a.MatchesExactly(b);
  }

  method Finished(ids: CallbackCounter, callback: bool, data: seq<bv8>) returns (msg: Msg)
    requires ids.Valid() && |data| <= 1
    modifies ids
    ensures fresh(msg) && fresh(msg.buffer) && ids.Valid() && msg.Valid() && msg.final
    ensures msg.callbackRequired == callback && msg.payload == [SOF, 0, 0x00, FUNC_ID_ZW_SEND_DATA] + data
  {
    hide Xor, Frame, Encapsulated, Framable;
    msg := new Msg(2, 0x00, FUNC_ID_ZW_SEND_DATA, callback, true, 0, 0);
    assert [SOF, 0, 0x00, FUNC_ID_ZW_SEND_DATA] + [] == [SOF, 0, 0x00, FUNC_ID_ZW_SEND_DATA];
    if data != [] {
      msg.Append(data[0]);
      assert [data[0]] == data;
    }
    msg.PlainIsUnchanged(msg.buffer[..msg.length]);
    msg.Finalize(ids);
  }

  ghost predicate SamePayload(p: seq<bv8>, q: seq<bv8>) {
    |p| == |q| && forall i | 0 <= i < |p| && i != 1 :: p[i] == q[i]
  }
}

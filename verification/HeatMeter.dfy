/** The heat-meter receiver: packets of M-Bus data blocks, sections 8.4.2 and 8.4.3
    of the M-Bus documentation. Masks of low bits are written as remainders; the
    time stamp comes from the system clock and is left out, but not that there is one. */
module HeatMeter {

  type Byte = n: nat | n < 256

  // ---- tables ----

  datatype Format = Int4 | Bcd3 | Bcd4

  datatype Quantity = Energy | Volume | VolumeFlow | Power | FlowTemp | ReturnTemp | TimePoint

  datatype Option<+T> = None | Some(value: T)

  /** A row of the table of value formats. */
  datatype DifRow = DifRow(dif: Byte, format: Format)

  /** A row of the table of quantities: a code matches if it agrees with the row up
      to its remainder by `unit`, which is what the mask leaves out. */
  datatype VifRow = VifRow(vif: Byte, unit: nat, quantity: Quantity)

  const DIFS: seq<DifRow> := [DifRow(0x04, Int4), DifRow(0x0B, Bcd3), DifRow(0x0C, Bcd4)]

  const VIFS: seq<VifRow> := [
    VifRow(0x00, 8, Energy), VifRow(0x10, 8, Volume), VifRow(0x38, 8, VolumeFlow), VifRow(0x28, 8, Power),
    VifRow(0x58, 4, FlowTemp), VifRow(0x5C, 4, ReturnTemp), VifRow(0x6D, 1, TimePoint)]

  function Width(f: Format): nat { if f == Bcd3 then 3 else 4 }

  /** One more than the largest value of the format. */
  function Limit(f: Format): nat {
    match f
    case Int4 => 0x1_0000_0000
    case Bcd3 => 1_000_000
    case Bcd4 => 100_000_000
  }

  function Dif(f: Format): Byte {
    match f
    case Int4 => 0x04
    case Bcd3 => 0x0B
    case Bcd4 => 0x0C
  }

  const END: Byte := 0x0F
  const FILLER: Byte := 0x2F

  predicate Matches(row: VifRow, vif: Byte) {
    row.unit > 0 && row.vif - row.vif % row.unit == vif - vif % row.unit
  }

  /** The format that a code announces. */
  function FormatOf(dif: Byte): Option<Format> {
    if dif == 0x04 then Some(Int4) else if dif == 0x0B then Some(Bcd3) else if dif == 0x0C then Some(Bcd4) else None
  }

  /** The quantity that a code announces, by the ranges of the codes. */
  function QuantityOf(vif: Byte): Option<Quantity> {
    if vif < 0x08 then Some(Energy)
    else if 0x10 <= vif < 0x18 then Some(Volume)
    else if 0x28 <= vif < 0x30 then Some(Power)
    else if 0x38 <= vif < 0x40 then Some(VolumeFlow)
    else if 0x58 <= vif < 0x5C then Some(FlowTemp)
    else if 0x5C <= vif < 0x60 then Some(ReturnTemp)
    else if vif == 0x6D then Some(TimePoint)
    else None
  }

  /** The power of ten that a code announces for its quantity. */
  function Exponent(q: Quantity, vif: Byte): int {
    match q
    case Energy => vif % 8 - 3
    case Power => vif % 8 - 3
    case Volume => vif % 8 - 6
    case VolumeFlow => vif % 8 - 6
    case FlowTemp => vif % 4 - 3
    case ReturnTemp => vif % 4 - 3
    case TimePoint => 0
  }

  /** The codes of a quantity: the least one, how many there are, and the power of ten
      of the least one. Each next code stands for the next power. */
  function Least(q: Quantity): Byte {
    match q
    case Energy => 0x00
    case Volume => 0x10
    case Power => 0x28
    case VolumeFlow => 0x38
    case FlowTemp => 0x58
    case ReturnTemp => 0x5C
    case TimePoint => 0x6D
  }

  function Codes(q: Quantity): nat {
    match q
    case Energy => 8
    case Volume => 8
    case Power => 8
    case VolumeFlow => 8
    case FlowTemp => 4
    case ReturnTemp => 4
    case TimePoint => 1
  }

  function LeastExponent(q: Quantity): int {
    match q
    case Energy => -3
    case Volume => -6
    case Power => -3
    case VolumeFlow => -6
    case FlowTemp => -3
    case ReturnTemp => -3
    case TimePoint => 0
  }

  predicate Announces(vif: Byte, q: Quantity) { Least(q) <= vif < Least(q) + Codes(q) }

  lemma CodesMean(vif: Byte, q: Quantity)
    ensures QuantityOf(vif) == Some(q) <==> Announces(vif, q)
    ensures Announces(vif, q) ==> Exponent(q, vif) == LeastExponent(q) + (vif - Least(q))
  {
  }

  /** The first matching row is the only one, and is the one of the code's range. */
  method MatchVif(vif: Byte) returns (q: Option<Quantity>)
    ensures q == QuantityOf(vif)
  {
    var i := 0;
    while i < |VIFS|
      invariant 0 <= i <= |VIFS| && forall j | 0 <= j < i :: !Matches(VIFS[j], vif)
    {
      if Matches(VIFS[i], vif) {
        RowDecides(i, vif);
        return Some(VIFS[i].quantity);
      }
      i := i + 1;
    }
    NoRow(vif);
    return None;
  }

  lemma RowDecides(i: nat, vif: Byte)
    requires i < |VIFS| && Matches(VIFS[i], vif)
    ensures QuantityOf(vif) == Some(VIFS[i].quantity)
  {
  }

  lemma NoRow(vif: Byte)
    requires forall j | 0 <= j < |VIFS| :: !Matches(VIFS[j], vif)
    ensures QuantityOf(vif) == None
  {
    assert !Matches(VIFS[0], vif) && !Matches(VIFS[1], vif) && !Matches(VIFS[2], vif) && !Matches(VIFS[3], vif);
    assert !Matches(VIFS[4], vif) && !Matches(VIFS[5], vif) && !Matches(VIFS[6], vif);
  }

  // ---- numbers ----

  predicate GoodDigits(c: Byte) { c % 16 <= 9 && c / 16 <= 9 }

  function Pair(c: Byte): nat { c % 16 + c / 16 * 10 }

  function Pow100(n: nat): nat { if n == 0 then 1 else 100 * Pow100(n - 1) }

  /** Two digits a byte, the lowest first. */
  function BcdSum(data: seq<Byte>): nat {
    if data == [] then 0 else Pair(data[0]) + 100 * BcdSum(data[1..])
  }

  predicate AllGood(data: seq<Byte>) { forall i | 0 <= i < |data| :: GoodDigits(data[i]) }

  /** A digit above nine makes the whole number zero. */
  function BcdValue(data: seq<Byte>): nat { if AllGood(data) then BcdSum(data) else 0 }

  /** One bad digit is enough. */
  lemma BadDigitIsZero(data: seq<Byte>, i: nat)
    requires i < |data| && (data[i] % 16 > 9 || data[i] / 16 > 9)
    ensures BcdValue(data) == 0
  {
    assert !GoodDigits(data[i]);
  }

  function EncodeBcd(value: nat, bytes: nat): seq<Byte> {
    if bytes == 0 then [] else [value % 10 + value / 10 % 10 * 16] + EncodeBcd(value / 100, bytes - 1)
  }

  method DecodeBcd(data: seq<Byte>) returns (out: nat)
    ensures out == BcdValue(data)
  {
    hide BcdSum, Pair;
    out := 0;
    var multiplier, i := 1, 0;
    assert data[0..] == data;
    while i < |data|
      invariant 0 <= i <= |data| && AllGood(data[..i]) && multiplier > 0
      invariant out + multiplier * BcdSum(data[i..]) == BcdSum(data)
    {
      var ones, tens := data[i] % 16, data[i] / 16 % 16;
      if ones > 9 || tens > 9 { return 0; }
      BcdStep(data, i, out, multiplier);
      PairOf(data[i]);
      out := out + (ones + tens * 10) * multiplier;
      multiplier := multiplier * 100;
      i := i + 1;
    }
    NoDigits(data[i..]);
    assert data[..i] == data;
  }

  lemma NoDigits(data: seq<Byte>)
    ensures data == [] ==> BcdSum(data) == 0
  {
  }

  lemma PairOf(c: Byte)
    ensures c / 16 % 16 == c / 16 && Pair(c) == c % 16 + c / 16 % 16 * 10
  {
  }

  lemma BcdStep(data: seq<Byte>, i: nat, out: nat, multiplier: nat)
    requires i < |data|
    ensures out + multiplier * BcdSum(data[i..])
            == out + Pair(data[i]) * multiplier + multiplier * 100 * BcdSum(data[i + 1..])
  {
    assert data[i..][1..] == data[i + 1..];
    Distribute(multiplier, Pair(data[i]), BcdSum(data[i + 1..]));
  }

  lemma Distribute(m: nat, a: nat, b: nat)
    ensures m * (a + 100 * b) == a * m + m * 100 * b
  {
  }

  /** Encoding and decoding numbers in decimal notation are inverse. */
  lemma {:induction false} BcdRoundTrip(value: nat, bytes: nat)
    requires value < Pow100(bytes)
    ensures |EncodeBcd(value, bytes)| == bytes && BcdValue(EncodeBcd(value, bytes)) == value
    ensures AllGood(EncodeBcd(value, bytes))
    decreases bytes
  {
    if bytes > 0 {
      BcdRoundTrip(value / 100, bytes - 1);
      var data := EncodeBcd(value, bytes);
      assert data[1..] == EncodeBcd(value / 100, bytes - 1);
      DigitPair(value);
    }
  }

  lemma DigitPair(value: nat)
    ensures var c := value % 10 + value / 10 % 10 * 16; c < 256 && GoodDigits(c) && Pair(c) == value % 100
  {
    var ones, tens := value % 10, value / 10 % 10;
    assert value % 100 == ones + 10 * tens;
  }

  lemma {:induction false} BcdBack(data: seq<Byte>)
    requires AllGood(data)
    ensures BcdValue(data) < Pow100(|data|) && EncodeBcd(BcdValue(data), |data|) == data
  {
    if data != [] {
      hide Pair;
      BcdBack(data[1..]);
      PairSplits(data[0], BcdSum(data[1..]));
      assert data == [data[0]] + data[1..];
    }
  }

  lemma PairSplits(c: Byte, rest: nat)
    requires GoodDigits(c)
    ensures
      var value := Pair(c) + 100 * rest;
      value % 10 + value / 10 % 10 * 16 == c && value / 100 == rest && Pair(c) < 100
  {
    var value := Pair(c) + 100 * rest;
    assert value / 10 == c / 16 + 10 * rest;
  }

  /** Whole bytes, the lowest first. */
  function IntValue(data: seq<Byte>): nat {
    if data == [] then 0 else data[0] + 256 * IntValue(data[1..])
  }

  function Pow256(n: nat): nat { if n == 0 then 1 else 256 * Pow256(n - 1) }

  function EncodeInt(value: nat, bytes: nat): seq<Byte> {
    if bytes == 0 then [] else [value % 256] + EncodeInt(value / 256, bytes - 1)
  }

  lemma {:induction false} IntRoundTrip(value: nat, bytes: nat)
    requires value < Pow256(bytes)
    ensures |EncodeInt(value, bytes)| == bytes && IntValue(EncodeInt(value, bytes)) == value
    decreases bytes
  {
    if bytes > 0 {
      IntRoundTrip(value / 256, bytes - 1);
      assert EncodeInt(value, bytes)[1..] == EncodeInt(value / 256, bytes - 1);
    }
  }

  // ---- data blocks ----

  datatype Measurement = Measurement(value: nat, exponent: int)

  /** The dictionary that is filled in. */
  datatype Reading = Reading(manufacturer: nat, serial: nat, version: Byte, device: Byte,
                             fields: map<Quantity, Measurement>, timestamped: bool)

  /** A packet is refused, or unpacking it raises an error, or there is a reading. */
  datatype Outcome = Refused | Raised | Done(reading: Reading)

  function Taken(reading: Reading, q: Quantity, vif: Byte, value: nat): Reading {
    if q == TimePoint then reading.(timestamped := true)
    else reading.(fields := reading.fields[q := Measurement(value, Exponent(q, vif))])
  }

  /** A slice that may reach beyond the end. */
  function Slice(data: seq<Byte>, from: nat, width: nat): seq<Byte> {
    if |data| <= from then [] else if |data| <= from + width then data[from..] else data[from..from + width]
  }

  function From(data: seq<Byte>, from: nat): seq<Byte> { if |data| <= from then [] else data[from..] }

  /** The value of a block; an integer must be there in full. */
  function ValueOf(f: Format, payload: seq<Byte>): Option<nat> {
    if f != Int4 then Some(BcdValue(payload)) else if |payload| == 4 then Some(IntValue(payload)) else None
  }

  /** The blocks up to the end mark. */
  function Blocks(data: seq<Byte>, reading: Reading): Outcome
    decreases |data|
  {
    if |data| < 2 then Raised
    else if data[0] >= 0x80 || data[1] >= 0x80 then Refused
    else if data[0] == END then Done(reading)
    else
      var f := FormatOf(data[0]);
      if f == None then Refused
      else
        var value := ValueOf(f.value, Slice(data, 2, Width(f.value)));
        if value == None then Raised
        else
          var q := QuantityOf(data[1]);
          if q == None then Refused
          else Blocks(From(data, 2 + Width(f.value)), Taken(reading, q.value, data[1], value.value))
  }

  function Word(low: nat, high: nat): nat { low + 256 * high }

  function Decoded(packet: seq<Byte>): Outcome {
    if |packet| < 10 || |packet| - 1 != packet[0] || packet[1] != 0x44 then Refused
    else if |packet| < 17 then Raised
    else if packet[15] != FILLER || packet[16] != FILLER then Refused
    else Blocks(packet[17..],
           Reading(Word(packet[2], packet[3]), BcdValue(packet[4..8]), packet[8], packet[9], map[], false))
  }

  /** The row of a format, with its decoder applied. */
  method MatchDif(dif: Byte, data: seq<Byte>) returns (f: Option<Format>, ended: bool, value: Option<nat>)
    ensures ended == (dif == END)
    ensures !ended ==> f == FormatOf(dif)
    ensures f.Some? ==> value == ValueOf(f.value, Slice(data, 2, Width(f.value)))
  {
    f, ended, value := None, false, None;
    var i := 0;
    while i < |DIFS|
      invariant 0 <= i <= |DIFS| && (forall j | 0 <= j < i :: DIFS[j].dif != dif) && (i > 0 ==> dif != END)
    {
      if DIFS[i].dif == dif {
        f := Some(DIFS[i].format);
        var payload := Slice(data, 2, Width(f.value));
        if f.value != Int4 {
          var bcd := DecodeBcd(payload);
          value := Some(bcd);
        } else if |payload| == 4 {
          value := Some(IntValue(payload));
        }
        return;
      } else if dif == END {
        ended := true;
        return;
      }
      i := i + 1;
    }
    assert DIFS[0].dif != dif && DIFS[1].dif != dif && DIFS[2].dif != dif;
  }

  method Decode(packet: seq<Byte>) returns (r: Outcome)
    ensures r == Decoded(packet)
  {
    hide BcdValue, ValueOf, QuantityOf, FormatOf, Exponent;
    if |packet| < 10 { return Refused; }
    if |packet| - 1 != packet[0] { return Refused; }
    if packet[1] != 0x44 { return Refused; }
    var serial := DecodeBcd(packet[4..8]);
    var reading := Reading(Word(packet[2], packet[3]), serial, packet[8], packet[9], map[], false);
    if |packet| < 17 { return Raised; }
    if packet[15] != FILLER || packet[16] != FILLER { return Refused; }
    var data := packet[17..];
    while true
      invariant Blocks(data, reading) == Decoded(packet)
      decreases |data|
    {
      if |data| < 2 { return Raised; }
      if data[0] >= 0x80 { return Refused; }
      if data[1] >= 0x80 { return Refused; }
      var f, ended, value := MatchDif(data[0], data);
      if ended { return Done(reading); }
      if f == None { return Refused; }
      if value == None { return Raised; }
      var q := MatchVif(data[1]);
      if q == None { return Refused; }
      reading := Taken(reading, q.value, data[1], value.value);
      data := From(data, 2 + Width(f.value));
    }
  }

  // ---- encoding ----

  /** A data block as a meter sends it. */
  datatype Block = Block(format: Format, vif: Byte, value: nat)

  predicate Sendable(b: Block) { b.value < Limit(b.format) && b.vif < 0x80 && QuantityOf(b.vif).Some? }

  function Payload(b: Block): seq<Byte> {
    if b.format == Int4 then EncodeInt(b.value, 4) else EncodeBcd(b.value, Width(b.format))
  }

  function Encoded(blocks: seq<Block>): seq<Byte> {
    if blocks == [] then []
    else [Dif(blocks[0].format), blocks[0].vif] + Payload(blocks[0]) + Encoded(blocks[1..])
  }

  /** The reading after some blocks. */
  function Collected(blocks: seq<Block>, reading: Reading): Reading
    requires forall b | b in blocks :: Sendable(b)
  {
    if blocks == [] then reading
    else
      assert blocks[0] in blocks && Sendable(blocks[0]);
      Collected(blocks[1..], Taken(reading, QuantityOf(blocks[0].vif).value, blocks[0].vif, blocks[0].value))
  }

  lemma PayloadRead(b: Block)
    requires Sendable(b)
    ensures |Payload(b)| == Width(b.format) && ValueOf(b.format, Payload(b)) == Some(b.value)
  {
    if b.format == Int4 {
      assert Pow256(4) == 0x1_0000_0000;
      IntRoundTrip(b.value, 4);
    } else {
      assert Pow100(3) == 1_000_000 && Pow100(4) == 100_000_000;
      BcdRoundTrip(b.value, Width(b.format));
    }
  }

  /** One block in front of the others. */
  lemma BlockStep(start: seq<Byte>, f: Format, rest: seq<Byte>, reading: Reading, q: Quantity, value: nat)
    requires |start| == 2 + Width(f) && start[0] == Dif(f) && start[1] < 0x80
    requires QuantityOf(start[1]) == Some(q) && ValueOf(f, start[2..]) == Some(value)
    ensures Blocks(start + rest, reading) == Blocks(rest, Taken(reading, q, start[1], value))
  {
    hide QuantityOf, ValueOf, Taken;
    var data := start + rest;
    assert data[0] == start[0] && data[1] == start[1];
    Cut(start, rest);
  }

  lemma Cut(start: seq<Byte>, rest: seq<Byte>)
    requires 2 <= |start|
    ensures
      var data := start + rest;
      Slice(data, 2, |start| - 2) == start[2..] && From(data, |start|) == rest
  {
    var data := start + rest;
    assert data[2..|start|] == start[2..] && data[|start|..] == rest;
    if rest == [] { assert data == start; }
  }

  lemma BlockRead(b: Block, rest: seq<Byte>, reading: Reading)
    requires Sendable(b)
    ensures Blocks([Dif(b.format), b.vif] + Payload(b) + rest, reading)
            == Blocks(rest, Taken(reading, QuantityOf(b.vif).value, b.vif, b.value))
  {
    hide Payload, QuantityOf, ValueOf, Blocks, Taken;
    PayloadRead(b);
    var start := [Dif(b.format), b.vif] + Payload(b);
    assert start[2..] == Payload(b);
    BlockStep(start, b.format, rest, reading, QuantityOf(b.vif).value, b.value);
  }

  /** The end mark counts only with a byte below 0x80 behind it. */
  lemma EndRead(stop: Byte, tail: seq<Byte>, reading: Reading)
    ensures Blocks([END, stop] + tail, reading) == if stop < 0x80 then Done(reading) else Refused
    ensures Blocks([END], reading) == Raised
  {
  }

  /** A filler between the blocks is refused, although it stands for an empty block. */
  lemma FillerRefused(rest: seq<Byte>, reading: Reading)
    requires rest != []
    ensures Blocks([FILLER] + rest, reading) == Refused
  {
  }

  lemma {:induction false} BlocksRead(blocks: seq<Block>, stop: Byte, tail: seq<Byte>, reading: Reading)
    requires (forall b | b in blocks :: Sendable(b)) && stop < 0x80
    ensures Blocks(Encoded(blocks) + [END, stop] + tail, reading) == Done(Collected(blocks, reading))
    decreases |blocks|
  {
    hide Payload, Blocks, Sendable, Taken;
    EndRead(stop, tail, reading);
    if blocks == [] {
      assert [] + [END, stop] + tail == [END, stop] + tail;
    } else {
      var b, q := blocks[0], QuantityOf(blocks[0].vif);
      FirstSendable(blocks);
      var rest := Encoded(blocks[1..]) + [END, stop] + tail;
      BlockRead(b, rest, reading);
      BlocksRead(blocks[1..], stop, tail, Taken(reading, q.value, b.vif, b.value));
      assert Encoded(blocks) + [END, stop] + tail == [Dif(b.format), b.vif] + Payload(b) + rest;
    }
  }

  lemma FirstSendable(blocks: seq<Block>)
    requires blocks != [] && forall b | b in blocks :: Sendable(b)
    ensures Sendable(blocks[0]) && QuantityOf(blocks[0].vif).Some?
  {
  }

  /** A whole packet: header, blocks, end mark and whatever follows. */
  function Packet(manufacturer: nat, serial: nat, version: Byte, device: Byte, unknown: seq<Byte>,
                  body: seq<Byte>): seq<Byte>
    requires manufacturer < 0x1_0000 && |unknown| == 5 && 16 + |body| < 256
  {
    [16 + |body|, 0x44] + EncodeInt(manufacturer, 2) + EncodeBcd(serial, 4) + [version, device] + unknown
      + [FILLER, FILLER] + body
  }

  /** Decoding gives back what the meter sent. */
  lemma PacketRoundTrip(manufacturer: nat, serial: nat, version: Byte, device: Byte, unknown: seq<Byte>,
                        blocks: seq<Block>, stop: Byte, tail: seq<Byte>)
    requires manufacturer < 0x1_0000 && serial < 100_000_000 && |unknown| == 5
    requires (forall b | b in blocks :: Sendable(b)) && stop < 0x80
    requires 16 + |Encoded(blocks) + [END, stop] + tail| < 256
    ensures Decoded(Packet(manufacturer, serial, version, device, unknown, Encoded(blocks) + [END, stop] + tail))
            == Done(Collected(blocks, Reading(manufacturer, serial, version, device, map[], false)))
  {
    hide Encoded, Blocks, BcdValue, EncodeBcd, Collected, Sendable;
    var body := Encoded(blocks) + [END, stop] + tail;
    var packet := Packet(manufacturer, serial, version, device, unknown, body);
    HeaderRead(manufacturer, serial, version, device, unknown, body);
    BlocksRead(blocks, stop, tail, Reading(manufacturer, serial, version, device, map[], false));
  }

  lemma HeaderRead(manufacturer: nat, serial: nat, version: Byte, device: Byte, unknown: seq<Byte>, body: seq<Byte>)
    requires manufacturer < 0x1_0000 && serial < 100_000_000 && |unknown| == 5 && 16 + |body| < 256
    ensures Decoded(Packet(manufacturer, serial, version, device, unknown, body))
            == Blocks(body, Reading(manufacturer, serial, version, device, map[], false))
  {
    hide Blocks, BcdValue, EncodeBcd, EncodeInt, IntValue;
    ManufacturerRead(manufacturer);
    SerialRead(serial);
    PacketParts([16 + |body|, 0x44], EncodeInt(manufacturer, 2), EncodeBcd(serial, 4), [version, device], unknown,
      [FILLER, FILLER], body);
  }

  /** Where the parts of a packet are. */
  lemma PacketParts(start: seq<Byte>, m: seq<Byte>, s: seq<Byte>, v: seq<Byte>, unknown: seq<Byte>, state: seq<Byte>,
                    body: seq<Byte>)
    requires |start| == 2 && |m| == 2 && |s| == 4 && |v| == 2 && |unknown| == 5 && |state| == 2
    ensures
      var p := start + m + s + v + unknown + state + body;
      && |p| == 17 + |body| && p[0] == start[0] && p[1] == start[1] && p[2] == m[0] && p[3] == m[1]
      && p[4..8] == s && p[8] == v[0] && p[9] == v[1] && p[15] == state[0] && p[16] == state[1] && p[17..] == body
  {
  }

  lemma ManufacturerRead(manufacturer: nat)
    requires manufacturer < 0x1_0000
    ensures var m := EncodeInt(manufacturer, 2); |m| == 2 && Word(m[0], m[1]) == manufacturer
  {
    assert EncodeInt(manufacturer, 2) == [manufacturer % 256] + EncodeInt(manufacturer / 256, 1);
    assert EncodeInt(manufacturer / 256, 1) == [manufacturer / 256 % 256] + EncodeInt(manufacturer / 256 / 256, 0);
  }

  lemma SerialRead(serial: nat)
    requires serial < 100_000_000
    ensures |EncodeBcd(serial, 4)| == 4 && BcdValue(EncodeBcd(serial, 4)) == serial
  {
    assert Pow100(4) == 100_000_000;
    BcdRoundTrip(serial, 4);
  }

  predicate About(b: Block, q: Quantity) { QuantityOf(b.vif) == Some(q) }

  /** What is read of a quantity is the last block about it. */
  lemma {:induction false} LastBlockCounts(blocks: seq<Block>, reading: Reading, q: Quantity, i: nat)
    requires (forall b | b in blocks :: Sendable(b)) && q != TimePoint
    requires i < |blocks| && About(blocks[i], q) && forall j | i < j < |blocks| :: !About(blocks[j], q)
    ensures
      var r := Collected(blocks, reading);
      q in r.fields && r.fields[q] == Measurement(blocks[i].value, Exponent(q, blocks[i].vif))
  {
    hide Exponent, QuantityOf;
    var b, rest := blocks[0], blocks[1..];
    assert b in blocks;
    var next := Taken(reading, QuantityOf(b.vif).value, b.vif, b.value);
    if i > 0 { LastBlockCounts(rest, next, q, i - 1); } else { OtherBlocksDoNot(rest, next, q); }
  }

  /** Without a block about it, nothing is read of a quantity. */
  lemma {:induction false} OtherBlocksDoNot(blocks: seq<Block>, reading: Reading, q: Quantity)
    requires forall b | b in blocks :: Sendable(b)
    requires forall j | 0 <= j < |blocks| :: !About(blocks[j], q)
    ensures
      var r := Collected(blocks, reading);
      (q in r.fields <==> q in reading.fields) && (q in r.fields ==> r.fields[q] == reading.fields[q])
  {
    hide Exponent, QuantityOf;
    if blocks != [] {
      var b, rest := blocks[0], blocks[1..];
      assert b in blocks;
      OtherBlocksDoNot(rest, Taken(reading, QuantityOf(b.vif).value, b.vif, b.value), q);
    }
  }

  /** What the reading of a packet says of a quantity: the value of the last block with a
      code of that quantity, and the power of ten that the code stands for. */
  lemma PacketYields(manufacturer: nat, serial: nat, version: Byte, device: Byte, unknown: seq<Byte>,
                     blocks: seq<Block>, stop: Byte, tail: seq<Byte>, q: Quantity, i: nat)
    requires manufacturer < 0x1_0000 && serial < 100_000_000 && |unknown| == 5
    requires (forall b | b in blocks :: Sendable(b)) && stop < 0x80
    requires 16 + |Encoded(blocks) + [END, stop] + tail| < 256 && q != TimePoint
    requires i < |blocks| && Announces(blocks[i].vif, q)
    requires forall j | i < j < |blocks| :: !Announces(blocks[j].vif, q)
    ensures
      var r := Decoded(Packet(manufacturer, serial, version, device, unknown, Encoded(blocks) + [END, stop] + tail));
      && r.Done? && q in r.reading.fields
      && r.reading.fields[q] == Measurement(blocks[i].value, LeastExponent(q) + (blocks[i].vif - Least(q)))
  {
    hide Decoded, Packet, Encoded, Collected, QuantityOf, Exponent, Announces, Sendable;
    PacketRoundTrip(manufacturer, serial, version, device, unknown, blocks, stop, tail);
    CodesMean(blocks[i].vif, q);
    forall j | i < j < |blocks| ensures !About(blocks[j], q) { CodesMean(blocks[j].vif, q); }
    LastBlockCounts(blocks, Reading(manufacturer, serial, version, device, map[], false), q, i);
  }

  // ---- what is accepted ----

  /** A block as it arrives, with any bytes for digits. */
  datatype Raw = Raw(format: Format, vif: Byte, payload: seq<Byte>)

  predicate WellFormed(b: Raw) {
    && |b.payload| == (if b.format == Bcd3 then 3 else 4)
    && exists q :: Announces(b.vif, q)
  }

  function Bytes(blocks: seq<Raw>): seq<Byte> {
    if blocks == [] then []
    else
      var b := blocks[0];
      [match b.format case Int4 => 0x04 case Bcd3 => 0x0B case Bcd4 => 0x0C, b.vif] + b.payload + Bytes(blocks[1..])
  }

  /** Blocks are read to the end exactly if they are well-formed blocks and an end mark. */
  lemma {:induction false} AcceptedBlocks(data: seq<Byte>, reading: Reading) returns (blocks: seq<Raw>, tail: seq<Byte>)
    requires Blocks(data, reading).Done?
    ensures (forall b | b in blocks :: WellFormed(b)) && |tail| >= 2 && tail[0] == 0x0F && tail[1] < 0x80
    ensures data == Bytes(blocks) + tail
    decreases |data|
  {
    hide BcdValue, IntValue, QuantityOf, Taken, Announces, Bytes;
    if data[0] == END {
      blocks, tail := [], data;
      NoBytes();
      assert data == [] + data;
    } else {
      var f, q := FormatOf(data[0]).value, QuantityOf(data[1]).value;
      var n := 2 + Width(f);
      var value := ValueOf(f, Slice(data, 2, Width(f))).value;
      LongEnough(data, f, From(data, n), Taken(reading, q, data[1], value));
      var more;
      more, tail := AcceptedBlocks(data[n..], Taken(reading, q, data[1], value));
      var b := Raw(f, data[1], data[2..n]);
      CodesMean(data[1], q);
      assert Announces(b.vif, q);
      blocks := [b] + more;
      BytesCons(b, more);
      Front(data, n, Bytes(more), tail);
    }
  }

  lemma NoBytes()
    ensures Bytes([]) == []
  {
  }

  lemma BytesCons(b: Raw, rest: seq<Raw>)
    ensures Bytes([b] + rest) == [Dif(b.format), b.vif] + b.payload + Bytes(rest)
  {
    assert ([b] + rest)[1..] == rest;
  }

  /** A block that ends short is not followed by an end mark. */
  lemma LongEnough(data: seq<Byte>, f: Format, rest: seq<Byte>, reading: Reading)
    requires |data| >= 2 && rest == From(data, 2 + Width(f)) && Blocks(rest, reading).Done?
    ensures |data| >= 2 + Width(f) && rest == data[2 + Width(f)..]
  {
    hide Taken, ValueOf;
  }

  lemma Front(data: seq<Byte>, n: nat, more: seq<Byte>, tail: seq<Byte>)
    requires 2 <= n <= |data| && data[n..] == more + tail
    ensures data == [data[0], data[1]] + data[2..n] + more + tail
  {
    assert data == [data[0], data[1]] + data[2..n] + data[n..];
  }

  lemma {:induction false} WellFormedAccepted(blocks: seq<Raw>, tail: seq<Byte>, reading: Reading)
    requires (forall b | b in blocks :: WellFormed(b)) && |tail| >= 2 && tail[0] == 0x0F && tail[1] < 0x80
    ensures Blocks(Bytes(blocks) + tail, reading).Done?
    decreases |blocks|
  {
    hide BcdValue, IntValue, Taken, Blocks, Bytes, Announces;
    if blocks == [] {
      NoBytes();
      assert [] + tail == tail;
      EndRead(tail[1], tail[2..], reading);
      assert tail == [END, tail[1]] + tail[2..];
    } else {
      var b := blocks[0];
      assert WellFormed(b) by { assert b in blocks; }
      var q :| Announces(b.vif, q);
      CodesMean(b.vif, q);
      SmallCode(b.vif, q);
      var start, value := [Dif(b.format), b.vif] + b.payload, ValueOf(b.format, b.payload).value;
      assert start[2..] == b.payload;
      WellFormedAccepted(blocks[1..], tail, Taken(reading, q, b.vif, value));
      BlockStep(start, b.format, Bytes(blocks[1..]) + tail, reading, q, value);
      assert blocks == [b] + blocks[1..];
      BytesCons(b, blocks[1..]);
      assert start + Bytes(blocks[1..]) + tail == start + (Bytes(blocks[1..]) + tail);
    }
  }

  lemma SmallCode(vif: Byte, q: Quantity)
    requires Announces(vif, q)
    ensures vif < 0x80
  {
  }

  /** The body is these blocks, an end mark with a byte below 80 hexadecimal, and anything. */
  predicate BodyOf(body: seq<Byte>, blocks: seq<Raw>) {
    var n := |Bytes(blocks)|;
    && (forall b | b in blocks :: WellFormed(b))
    && |body| >= n + 2 && body[..n] == Bytes(blocks) && body[n] == 0x0F && body[n + 1] < 0x80
  }

  /** A packet gives a reading exactly if its header has the right length, control byte
      and check, and its blocks are well-formed up to an end mark. */
  lemma AcceptedExactly(packet: seq<Byte>)
    ensures Decoded(packet).Done? <==>
            && |packet| >= 17 && packet[0] == |packet| - 1 && packet[1] == 0x44
            && packet[15] == 0x2F && packet[16] == 0x2F && exists blocks :: BodyOf(packet[17..], blocks)
  {
    hide BcdValue, IntValue, Blocks, Bytes, WellFormed;
    if |packet| >= 17 && packet[0] == |packet| - 1 && packet[1] == 0x44 && packet[15] == 0x2F && packet[16] == 0x2F {
      var body, reading := packet[17..], Start(packet);
      if Blocks(body, reading).Done? {
        var blocks, tail := AcceptedBlocks(body, reading);
        assert BodyOf(body, blocks);
      }
      if blocks :| BodyOf(body, blocks) {
        var n := |Bytes(blocks)|;
        assert body == body[..n] + body[n..];
        WellFormedAccepted(blocks, body[n..], reading);
      }
    }
  }

  function Start(packet: seq<Byte>): Reading
    requires |packet| >= 10
  {
    Reading(Word(packet[2], packet[3]), BcdValue(packet[4..8]), packet[8], packet[9], map[], false)
  }

  // ---- the example of the source ----

  const EXAMPLE_HEADER: seq<Byte> := [
    0x3B, 0x44, 0xA7, 0x32, 0x18, 0x00, 0x16, 0x68, 0x07, 0x04, 0x7A, 0x2E, 0x10, 0x00, 0x20, 0x2F, 0x2F]

  /** Energy and volume, flow and power, temperatures, the time and what follows. */
  function ExampleBody(): seq<Byte> {
    [0x0C, 0x06, 0x24, 0x00, 0x00, 0x00] + ([0x0C, 0x14, 0x59, 0x00, 0x00, 0x00] + ExampleFlow())
  }

  function ExampleFlow(): seq<Byte> {
    [0x0B, 0x3B, 0x00, 0x00, 0x00] + ([0x0B, 0x2D, 0x00, 0x00, 0x00] + ExampleTemperatures())
  }

  function ExampleTemperatures(): seq<Byte> {
    [0x0B, 0x5A, 0x90, 0x01, 0x00] + ([0x0B, 0x5E, 0x79, 0x01, 0x00] + ExampleTime())
  }

  function ExampleTime(): seq<Byte> { [0x04, 0x6D, 0x35, 0x0B, 0xE3, 0x1A] + [0x0F, 0x00, 0x00, 0x01, 0x0A] }

  /** 24 kWh, 0.59 cubic metres, no flow and no power, 19.0 and 17.9 degrees. */
  lemma ExamplePacket()
    ensures Decoded(EXAMPLE_HEADER + ExampleBody()) == Done(Reading(0x32A7, 68_160_018, 0x07, 0x04, map[
              Energy := Measurement(24, 3), Volume := Measurement(59, -2), VolumeFlow := Measurement(0, -3),
              Power := Measurement(0, 2), FlowTemp := Measurement(190, -1), ReturnTemp := Measurement(179, -1)], true))
  {
    ExampleHeader(ExampleBody());
    hide Decoded, Blocks, ExampleFlow, Announces;
    var r := Reading(0x32A7, 68_160_018, 0x07, 0x04, map[], false);
    var next := r.(fields := map[Energy := Measurement(24, 3)]);
    SmallCodes();
    FourBytes(0x06, 0x24, 0x00, 0x00, 0x00, [0x0C, 0x14, 0x59, 0x00, 0x00, 0x00] + ExampleFlow(), r, Energy, 24, 3);
    FourBytes(0x14, 0x59, 0x00, 0x00, 0x00, ExampleFlow(), next, Volume, 59, -2);
    FlowRead(next.(fields := next.fields[Volume := Measurement(59, -2)]));
  }

  lemma SmallCodes()
    ensures Announces(0x06, Energy) && Announces(0x14, Volume) && Announces(0x3B, VolumeFlow) && Announces(0x2D, Power)
    ensures Announces(0x5A, FlowTemp) && Announces(0x5E, ReturnTemp)
  {
  }

  lemma FlowRead(r: Reading)
    ensures Blocks(ExampleFlow(), r) == Done(r.(timestamped := true, fields :=
              r.fields[VolumeFlow := Measurement(0, -3)][Power := Measurement(0, 2)]
              [FlowTemp := Measurement(190, -1)][ReturnTemp := Measurement(179, -1)]))
  {
    hide Blocks, ExampleTemperatures, Announces;
    var next := r.(fields := r.fields[VolumeFlow := Measurement(0, -3)]);
    SmallCodes();
    ThreeBytes(0x3B, 0x00, 0x00, 0x00, [0x0B, 0x2D, 0x00, 0x00, 0x00] + ExampleTemperatures(), r, VolumeFlow, 0, -3);
    ThreeBytes(0x2D, 0x00, 0x00, 0x00, ExampleTemperatures(), next, Power, 0, 2);
    TemperaturesRead(next.(fields := next.fields[Power := Measurement(0, 2)]));
  }

  lemma TemperaturesRead(r: Reading)
    ensures Blocks(ExampleTemperatures(), r) == Done(r.(timestamped := true, fields :=
              r.fields[FlowTemp := Measurement(190, -1)][ReturnTemp := Measurement(179, -1)]))
  {
    hide Blocks, ExampleTime, Announces;
    var next := r.(fields := r.fields[FlowTemp := Measurement(190, -1)]);
    SmallCodes();
    ThreeBytes(0x5A, 0x90, 0x01, 0x00, [0x0B, 0x5E, 0x79, 0x01, 0x00] + ExampleTime(), r, FlowTemp, 190, -1);
    ThreeBytes(0x5E, 0x79, 0x01, 0x00, ExampleTime(), next, ReturnTemp, 179, -1);
    TimeRead(next.(fields := next.fields[ReturnTemp := Measurement(179, -1)]));
  }

  lemma TimeRead(r: Reading)
    ensures Blocks(ExampleTime(), r) == Done(r.(timestamped := true))
  {
    hide Blocks;
    TimeBytes(0x35, 0x0B, 0xE3, 0x1A, [0x0F, 0x00, 0x00, 0x01, 0x0A], r);
    EndRead(0x00, [0x00, 0x01, 0x0A], r.(timestamped := true));
    assert [0x0F, 0x00, 0x00, 0x01, 0x0A] == [END, 0x00] + [0x00, 0x01, 0x0A];
  }

  lemma ExampleHeader(body: seq<Byte>)
    requires |body| == 43
    ensures Decoded(EXAMPLE_HEADER + body) == Blocks(body, Reading(0x32A7, 68_160_018, 0x07, 0x04, map[], false))
  {
    hide Blocks, BcdValue;
    var packet := EXAMPLE_HEADER + body;
    assert packet[17..] == body;
    assert packet[4..8] == [0x18, 0x00, 0x16, 0x68];
    EightDigits(0x18, 0x00, 0x16, 0x68);
  }

  lemma EightDigits(a: Byte, b: Byte, c: Byte, d: Byte)
    requires GoodDigits(a) && GoodDigits(b) && GoodDigits(c) && GoodDigits(d)
    ensures BcdValue([a, b, c, d]) == Pair(a) + 100 * Pair(b) + 10_000 * Pair(c) + 1_000_000 * Pair(d)
  {
    SixDigits(b, c, d);
    assert [a, b, c, d][1..] == [b, c, d];
  }

  lemma SixDigits(a: Byte, b: Byte, c: Byte)
    requires GoodDigits(a) && GoodDigits(b) && GoodDigits(c)
    ensures AllGood([a, b, c]) && BcdSum([a, b, c]) == Pair(a) + 100 * Pair(b) + 10_000 * Pair(c)
  {
    hide Pair, GoodDigits;
    assert [a, b, c][1..] == [b, c] && [b, c][1..] == [c];
    assert BcdSum([c]) == Pair(c) by { assert [c][1..] == []; }
    assert BcdSum([b, c]) == Pair(b) + 100 * Pair(c);
  }

  /** Code 0C: eight decimal digits in four bytes, the lowest first. */
  lemma FourBytes(vif: Byte, a: Byte, b: Byte, c: Byte, d: Byte, rest: seq<Byte>, reading: Reading, q: Quantity,
                  value: nat, exponent: int)
    requires Announces(vif, q) && q != TimePoint && exponent == LeastExponent(q) + (vif - Least(q))
    requires GoodDigits(a) && GoodDigits(b) && GoodDigits(c) && GoodDigits(d)
    requires value == Pair(a) + 100 * Pair(b) + 10_000 * Pair(c) + 1_000_000 * Pair(d)
    ensures Blocks([0x0C, vif, a, b, c, d] + rest, reading)
            == Blocks(rest, reading.(fields := reading.fields[q := Measurement(value, exponent)]))
  {
    hide BcdValue, QuantityOf, Exponent, Pair, GoodDigits, Blocks;
    EightDigits(a, b, c, d);
    CodesMean(vif, q);
    assert [0x0C, vif, a, b, c, d][2..] == [a, b, c, d];
    BlockStep([0x0C, vif, a, b, c, d], Bcd4, rest, reading, q, value);
  }

  /** Code 0B: six decimal digits in three bytes. */
  lemma ThreeBytes(vif: Byte, a: Byte, b: Byte, c: Byte, rest: seq<Byte>, reading: Reading, q: Quantity,
                   value: nat, exponent: int)
    requires Announces(vif, q) && q != TimePoint && exponent == LeastExponent(q) + (vif - Least(q))
    requires GoodDigits(a) && GoodDigits(b) && GoodDigits(c)
    requires value == Pair(a) + 100 * Pair(b) + 10_000 * Pair(c)
    ensures Blocks([0x0B, vif, a, b, c] + rest, reading)
            == Blocks(rest, reading.(fields := reading.fields[q := Measurement(value, exponent)]))
  {
    hide BcdSum, AllGood, QuantityOf, Exponent, Pair, GoodDigits, Blocks;
    SixDigits(a, b, c);
    CodesMean(vif, q);
    assert [0x0B, vif, a, b, c][2..] == [a, b, c];
    BlockStep([0x0B, vif, a, b, c], Bcd3, rest, reading, q, value);
  }

  /** Code 04 with a time: the bytes are read but the clock is looked at. */
  lemma TimeBytes(a: Byte, b: Byte, c: Byte, d: Byte, rest: seq<Byte>, reading: Reading)
    ensures Blocks([0x04, 0x6D, a, b, c, d] + rest, reading) == Blocks(rest, reading.(timestamped := true))
  {
    hide IntValue, Blocks;
    var start := [0x04, 0x6D, a, b, c, d];
    assert start[2..] == [a, b, c, d];
    BlockStep(start, Int4, rest, reading, TimePoint, IntValue(start[2..]));
  }
}

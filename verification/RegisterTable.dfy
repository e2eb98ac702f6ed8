/** The interpreter of register tables with delays and variable-length bursts. */
module RegisterTable {
  import opened Basics
  import opened Bus

  datatype Reg = Reg(offset: Byte, value: Byte)

  const META_SWITCH: int := 255
  const META_DELAY: int := 254
  const META_BURST: int := 253
  const END_1: int := 0xaa
  const END_2: int := 0xcc
  const END_3: int := 0xee

  /** The table as the memory it occupies: offset and value bytes alternate. */
  function Raw(r: seq<Reg>): (bytes: seq<Byte>)
    ensures |bytes| == 2 * |r|
  {
    if r == [] then [] else [r[0].offset, r[0].value] + Raw(r[1..])
  }

  /** The end marker is the three offsets together. */
  predicate AtMarker(r: seq<Reg>) {
    3 <= |r| && r[0].offset == END_1 && r[1].offset == END_2 && r[2].offset == END_3
  }

  /** How many entries the first one takes up: a burst also takes the pairs that hold its bytes. */
  function Width(r: seq<Reg>): nat
    requires r != []
  {
    if r[0].offset == META_BURST then r[0].value / 2 + 2 else 1
  }

  /** The first entry's action reads only the table: a burst ends inside it, and a first marker entry
      has followers. */
  predicate HeadInRange(r: seq<Reg>)
    requires r != []
  {
    if r[0].offset == META_BURST then 1 + r[0].value <= 2 * (|r| - 1)
    else if r[0].offset == END_1 then 2 <= |r| && (r[1].offset == END_2 ==> 3 <= |r|)
    else true
  }

  predicate InRange(r: seq<Reg>) {
    r == [] || (HeadInRange(r) && InRange(r[Width(r)..]))
  }

  /** What the bus sees of the first entry; one tick of the scheduler is one millisecond. */
  function Head(r: seq<Reg>): seq<Event>
    requires r != [] && HeadInRange(r)
  {
    if r[0].offset == META_SWITCH then []
    else if r[0].offset == META_DELAY then [Delay(r[0].value)]
    else if r[0].offset == META_BURST then [I2cWrite(r[1].offset, Raw(r[1..])[1..1 + r[0].value])]
    else if AtMarker(r) then []
    else [I2cWrite(r[0].offset, [r[0].value])]
  }

  function Played(r: seq<Reg>): seq<Event>
    requires InRange(r)
  {
    if r == [] then [] else Head(r) + Played(r[Width(r)..])
  }

  method TransmitRegisters(bus: I2cBus, r: seq<Reg>)
    requires InRange(r)
    modifies bus
    ensures bus.trace == old(bus.trace) + Played(r)
  {
    hide Raw, Played, InRange, Head, HeadInRange, Width, AtMarker;
    ghost var before, done := bus.trace, [];
    var i := 0;
    assert r[0..] == r;
    while i < |r|
      invariant 0 <= i <= |r| && InRange(r[i..])
      invariant bus.trace == before + done && done + Played(r[i..]) == Played(r)
    {
      ghost var rest := r[i..];
      Unfolds(rest);
      HeadIs(rest);
      assert rest[Width(rest)..] == r[i + Width(rest)..] && rest[1..] == r[i + 1..];
      done := done + Head(rest);
      if r[i].offset == META_SWITCH {
      } else if r[i].offset == META_DELAY {
        bus.Wait(r[i].value);
      } else if r[i].offset == META_BURST {
        bus.Put(r[i + 1].offset, Raw(r[i + 1..])[1..1 + r[i].value]);
        i := i + r[i].value / 2 + 1;
      } else if r[i].offset == END_1 && r[i + 1].offset == END_2 && r[i + 2].offset == END_3 {
        // leaves only the switch
      } else {
        bus.Put(r[i].offset, [r[i].value]);
      }
      i := i + 1;
    }
    assert r[i..] == [];
    NothingLeft();
  }

  lemma {:induction false} Unfolds(r: seq<Reg>)
    requires r != [] && InRange(r)
    ensures HeadInRange(r) && Width(r) <= |r| && InRange(r[Width(r)..])
    ensures Played(r) == Head(r) + Played(r[Width(r)..])
  {
  }

  /** The first entry's action and width, case by case. */
  lemma {:induction false} HeadIs(r: seq<Reg>)
    requires r != [] && HeadInRange(r)
    ensures r[0].offset == META_SWITCH ==> Head(r) == [] && Width(r) == 1
    ensures r[0].offset == META_DELAY ==> Head(r) == [Delay(r[0].value)] && Width(r) == 1
    ensures r[0].offset == META_BURST ==>
              && 2 <= |r| && 1 + r[0].value <= |Raw(r[1..])| && Width(r) == r[0].value / 2 + 2
              && Head(r) == [I2cWrite(r[1].offset, Raw(r[1..])[1..1 + r[0].value])]
    ensures r[0].offset == END_1 ==>
              && 2 <= |r| && (r[1].offset == END_2 ==> 3 <= |r|) && Width(r) == 1
              && Head(r) == if r[1].offset == END_2 && r[2].offset == END_3 then []
                            else [I2cWrite(r[0].offset, [r[0].value])]
    ensures r[0].offset < META_BURST && r[0].offset != END_1 ==>
              Head(r) == [I2cWrite(r[0].offset, [r[0].value])] && Width(r) == 1
  {
  }

  lemma {:induction false} NothingLeft()
    ensures InRange([]) && Played([]) == []
  {
  }

  /** An entry 254 pauses. */
  lemma {:induction false} PauseEntry(ms: Byte, rest: seq<Reg>)
    requires InRange(rest)
    ensures InRange([Reg(254, ms)] + rest)
    ensures Played([Reg(254, ms)] + rest) == [Delay(ms)] + Played(rest)
  {
    hide Raw;
    assert ([Reg(254, ms)] + rest)[1..] == rest;
  }

  /** An entry 255 does nothing. */
  lemma {:induction false} SwitchEntry(value: Byte, rest: seq<Reg>)
    requires InRange(rest)
    ensures InRange([Reg(255, value)] + rest)
    ensures Played([Reg(255, value)] + rest) == Played(rest)
  {
    hide Raw;
    assert ([Reg(255, value)] + rest)[1..] == rest;
  }

  /** An entry 253 with value v writes v bytes, those in memory behind the next entry's offset, and takes
      up v / 2 + 1 entries more. */
  lemma {:induction false} BurstEntry(v: Byte, body: seq<Reg>, data: seq<Byte>, rest: seq<Reg>)
    requires InRange(rest) && |body| == v / 2 + 1 && |data| == v
    requires forall i :: 0 <= i < v ==> data[i] == if i % 2 == 0 then body[i / 2].value else body[i / 2 + 1].offset
    ensures InRange([Reg(253, v)] + body + rest)
    ensures Played([Reg(253, v)] + body + rest) == [I2cWrite(body[0].offset, data)] + Played(rest)
  {
    hide Raw;
    var r := [Reg(253, v)] + body + rest;
    assert r[1..] == body + rest && r[v / 2 + 2..] == rest;
    forall i | 0 <= i < v
      ensures Raw(r[1..])[1 + i] == data[i]
    {
      RawAt(r[1..], 1 + i);
    }
    assert Raw(r[1..])[1..1 + v] == data;
  }

  /** Bytes in memory: even places hold offsets, odd ones values. */
  lemma {:induction false} RawAt(r: seq<Reg>, i: nat)
    requires i < 2 * |r|
    ensures Raw(r)[i] == if i % 2 == 0 then r[i / 2].offset else r[i / 2].value
    decreases i
  {
    if 2 <= i {
      RawAt(r[1..], i - 2);
    }
  }

  /** The marker 0xaa, 0xcc, 0xee: the first entry does nothing, the other two are writes. */
  lemma {:induction false} MarkerEntries(v1: Byte, v2: Byte, v3: Byte, rest: seq<Reg>)
    requires InRange(rest)
    ensures var marker := [Reg(0xaa, v1), Reg(0xcc, v2), Reg(0xee, v3)];
            && InRange(marker + rest)
            && Played(marker + rest) == [I2cWrite(0xcc, [v2]), I2cWrite(0xee, [v3])] + Played(rest)
  {
    hide Raw, Played, InRange;
    var r3 := [Reg(0xee, v3)] + rest;
    var r2 := [Reg(0xcc, v2)] + r3;
    var r1 := [Reg(0xaa, v1)] + r2;
    WriteEntry(0xee, v3, rest);
    WriteEntry(0xcc, v2, r3);
    SkippedEntry(r1, r2);
    assert r1 == [Reg(0xaa, v1), Reg(0xcc, v2), Reg(0xee, v3)] + rest;
  }

  lemma {:induction false} SkippedEntry(r: seq<Reg>, rest: seq<Reg>)
    requires 3 <= |r| && r[0].offset == 0xaa && r[1].offset == 0xcc && r[2].offset == 0xee
    requires rest == r[1..] && InRange(rest)
    ensures InRange(r) && Played(r) == Played(rest)
  {
    hide Raw;
  }

  /** Any other entry is one register write: 253 to 255 apart, and 0xaa before 0xcc and 0xee. */
  lemma {:induction false} WriteEntry(reg: Byte, value: Byte, rest: seq<Reg>)
    requires InRange(rest) && reg < 253
    requires reg == 0xaa ==> rest != [] && (rest[0].offset != 0xcc || (2 <= |rest| && rest[1].offset != 0xee))
    ensures InRange([Reg(reg, value)] + rest)
    ensures Played([Reg(reg, value)] + rest) == [I2cWrite(reg, [value])] + Played(rest)
  {
    hide Raw;
    assert ([Reg(reg, value)] + rest)[1..] == rest;
  }

  /** What a table's author means. */
  datatype Op = Single(reg: Byte, value: Byte) | Pause(ms: Byte) | Burst(reg: Byte, data: seq<Byte>) {

    predicate Encodable() {
      match this
      case Single(reg, _) => reg != META_SWITCH && reg != META_DELAY && reg != META_BURST
      case Pause(_) => true
      case Burst(_, data) => |data| < 256
    }

    /** A write to the register whose number begins the end marker. */
    predicate StartsMarker() {
      Single? && reg == END_1
    }

    function Effect(): Event {
      match this
      case Single(reg, value) => I2cWrite(reg, [value])
      case Pause(ms) => Delay(ms)
      case Burst(reg, data) => I2cWrite(reg, data)
    }

    /** An operation's entries: a burst is its length, then its bytes two to an entry, padded. */
    function Entries(pad: Byte): seq<Reg>
      requires Encodable()
    {
      match this
      case Single(reg, value) => [Reg(reg, value)]
      case Pause(ms) => [Reg(META_DELAY, ms)]
      case Burst(reg, data) => [Reg(META_BURST, |data|)] + Pack([reg] + data, pad)
    }
  }

  /** Exactly the writes to registers 253 to 255 and the bursts of more than 255 bytes have no entries. */
  lemma {:induction false} EncodableIff(op: Op)
    ensures op.Encodable() <==> match op
                                case Single(reg, _) => reg < 253
                                case Pause(_) => true
                                case Burst(_, data) => |data| <= 255
  {
  }

  function Pack(bytes: seq<Byte>, pad: Byte): (r: seq<Reg>)
    ensures |r| == (|bytes| + 1) / 2
  {
    if bytes == [] then []
    else if |bytes| == 1 then [Reg(bytes[0], pad)]
    else [Reg(bytes[0], bytes[1])] + Pack(bytes[2..], pad)
  }

  ghost predicate AllEncodable(ops: seq<Op>) {
    forall i :: 0 <= i < |ops| ==> ops[i].Encodable()
  }

  function Encode(ops: seq<Op>, pad: Byte): seq<Reg>
    requires AllEncodable(ops)
  {
    if ops == [] then [] else ops[0].Entries(pad) + Encode(ops[1..], pad)
  }

  function Effects(ops: seq<Op>): seq<Event> {
    if ops == [] then [] else [ops[0].Effect()] + Effects(ops[1..])
  }

  /** Packed bytes read back from memory, whatever follows them. */
  lemma {:induction false} RawOfPacked(bytes: seq<Byte>, pad: Byte, rest: seq<Reg>)
    ensures |bytes| <= |Raw(Pack(bytes, pad) + rest)| && Raw(Pack(bytes, pad) + rest)[..|bytes|] == bytes
    decreases |bytes|
  {
    var r := Pack(bytes, pad) + rest;
    if |bytes| == 1 {
      assert r[0] == Reg(bytes[0], pad);
    } else if bytes != [] {
      RawOfPacked(bytes[2..], pad, rest);
      assert r[0] == Reg(bytes[0], bytes[1]) && r[1..] == Pack(bytes[2..], pad) + rest;
      assert bytes == [bytes[0], bytes[1]] + bytes[2..];
    }
  }

  /** Interpreting one operation's entries performs that operation, unless they begin an end marker, and
      goes on behind them. */
  lemma {:induction false} OpReplays(op: Op, pad: Byte, rest: seq<Reg>)
    requires op.Encodable() && InRange(op.Entries(pad) + rest)
    ensures InRange(rest)
    ensures var r := op.Entries(pad) + rest;
            Played(r) == (if AtMarker(r) then [] else [op.Effect()]) + Played(rest)
  {
    hide *;
    var r := op.Entries(pad) + rest;
    HeadReplays(op, pad, rest);
    Unfolds(r);
  }

  lemma {:induction false} HeadReplays(op: Op, pad: Byte, rest: seq<Reg>)
    requires op.Encodable()
    ensures var r := op.Entries(pad) + rest;
            && r != [] && Width(r) == |op.Entries(pad)| && r[Width(r)..] == rest
            && (HeadInRange(r) ==> Head(r) == if AtMarker(r) then [] else [op.Effect()])
            && (op.StartsMarker() || (HeadInRange(r) && !AtMarker(r)))
  {
    hide Raw, Pack;
    if op.Burst? {
      BurstReplays(op.reg, op.data, pad, rest);
    }
  }

  lemma {:induction false} BurstReplays(reg: Byte, data: seq<Byte>, pad: Byte, rest: seq<Reg>)
    requires |data| < 256
    ensures var op := Burst(reg, data);
            var r := op.Entries(pad) + rest;
            && r != [] && r[0] == Reg(META_BURST, |data|) && HeadInRange(r) && Head(r) == [op.Effect()]
  {
    hide Raw, Pack;
    var bytes := [reg] + data;
    var tail := Pack(bytes, pad) + rest;
    RawOfPacked(bytes, pad, rest);
    BurstBytes(tail, reg, data);
    assert (Burst(reg, data).Entries(pad) + rest)[1..] == tail;
  }

  lemma {:induction false} BurstBytes(r: seq<Reg>, reg: Byte, data: seq<Byte>)
    requires 1 + |data| <= |Raw(r)| && Raw(r)[..1 + |data|] == [reg] + data
    ensures r != [] && r[0].offset == reg && Raw(r)[1..1 + |data|] == data
  {
    var raw := Raw(r);
    assert raw[0] == raw[..1 + |data|][0];
    assert raw[1..1 + |data|] == raw[..1 + |data|][1..];
  }

  /** What a table does that encodes `ops` before `rest`: an entry that begins an end marker does nothing. */
  function Shown(ops: seq<Op>, pad: Byte, rest: seq<Reg>): (events: seq<Event>)
    requires AllEncodable(ops)
    ensures |events| <= |ops|
  {
    if ops == [] then [] else
      (if AtMarker(Encode(ops, pad) + rest) then [] else [ops[0].Effect()]) + Shown(ops[1..], pad, rest)
  }

  /** Some operation's entries begin an end marker, together with what follows them. */
  ghost predicate MeetsMarker(ops: seq<Op>, pad: Byte, rest: seq<Reg>)
    requires AllEncodable(ops)
  {
    exists i :: 0 <= i < |ops| && AtMarker(Encode(ops[i..], pad) + rest)
  }

  lemma {:induction false} TableShows(ops: seq<Op>, pad: Byte, rest: seq<Reg>)
    requires AllEncodable(ops) && InRange(Encode(ops, pad) + rest)
    ensures InRange(rest) && Played(Encode(ops, pad) + rest) == Shown(ops, pad, rest) + Played(rest)
    decreases |ops|
  {
    hide Played, InRange, Op.Entries, Op.Encodable, Op.Effect, AtMarker;
    if ops == [] {
      assert Encode(ops, pad) + rest == rest;
    } else {
      var tail := Encode(ops[1..], pad) + rest;
      assert Encode(ops, pad) + rest == ops[0].Entries(pad) + tail;
      OpReplays(ops[0], pad, tail);
      TableShows(ops[1..], pad, rest);
    }
  }

  /** Every operation is performed unless a marker is met; each marker costs one. */
  lemma {:induction false} ShownIff(ops: seq<Op>, pad: Byte, rest: seq<Reg>)
    requires AllEncodable(ops)
    ensures |Effects(ops)| == |ops|
    ensures MeetsMarker(ops, pad, rest) ==> |Shown(ops, pad, rest)| < |ops|
    ensures !MeetsMarker(ops, pad, rest) ==> Shown(ops, pad, rest) == Effects(ops)
    decreases |ops|
  {
    hide AtMarker, Encode, Op.Encodable;
    if ops != [] {
      assert ops[0..] == ops;
      forall i | 0 <= i < |ops| - 1
        ensures ops[1..][i..] == ops[i + 1..]
      {
      }
      ShownIff(ops[1..], pad, rest);
      MeetsStep(ops, pad, rest);
    }
  }

  lemma {:induction false} MeetsStep(ops: seq<Op>, pad: Byte, rest: seq<Reg>)
    requires AllEncodable(ops) && ops != []
    ensures MeetsMarker(ops, pad, rest)
            <==> AtMarker(Encode(ops, pad) + rest) || MeetsMarker(ops[1..], pad, rest)
  {
    hide AtMarker, Encode, Op.Encodable;
    assert ops[0..] == ops;
    if MeetsMarker(ops, pad, rest) {
      var i :| 0 <= i < |ops| && AtMarker(Encode(ops[i..], pad) + rest);
      assert i > 0 ==> ops[i..] == ops[1..][i - 1..];
    }
    if MeetsMarker(ops[1..], pad, rest) {
      var i :| 0 <= i < |ops[1..]| && AtMarker(Encode(ops[1..][i..], pad) + rest);
      assert ops[i + 1..] == ops[1..][i..];
    }
  }

  /** Running the encoding of any operations performs exactly those operations, and then whatever the
      entries behind them say, if and only if no operation's entries begin an end marker. */
  lemma {:induction false} TableRoundTrip(ops: seq<Op>, pad: Byte, rest: seq<Reg>)
    requires AllEncodable(ops) && InRange(Encode(ops, pad) + rest)
    ensures InRange(rest)
    ensures Played(Encode(ops, pad) + rest) == Effects(ops) + Played(rest) <==> !MeetsMarker(ops, pad, rest)
  {
    hide *;
    TableShows(ops, pad, rest);
    ShownIff(ops, pad, rest);
  }

  /** Operations that do not write the marker's first register are always in range and never meet one. */
  lemma {:induction false} PlainTable(ops: seq<Op>, pad: Byte, rest: seq<Reg>)
    requires AllEncodable(ops) && InRange(rest)
    requires forall i :: 0 <= i < |ops| ==> !ops[i].StartsMarker()
    ensures InRange(Encode(ops, pad) + rest) && !MeetsMarker(ops, pad, rest)
    decreases |ops|
  {
    hide Op.Entries, Op.Encodable, AtMarker, HeadInRange, Width, Op.StartsMarker;
    if ops == [] {
      assert Encode(ops, pad) + rest == rest;
    } else {
      var tail := Encode(ops[1..], pad) + rest;
      assert Encode(ops, pad) + rest == ops[0].Entries(pad) + tail;
      PlainTable(ops[1..], pad, rest);
      HeadReplays(ops[0], pad, tail);
      MeetsStep(ops, pad, rest);
    }
  }

  /** The end marker does not end anything: its first entry is skipped, the other two are written as
      registers, and what follows is interpreted as before. */
  lemma {:induction false} MarkerDoesNotEnd(ops: seq<Op>, pad: Byte, v1: Byte, v2: Byte, v3: Byte, rest: seq<Reg>)
    requires AllEncodable(ops) && InRange(rest)
    requires forall i :: 0 <= i < |ops| ==> !ops[i].StartsMarker()
    ensures var marker := [Reg(0xaa, v1), Reg(0xcc, v2), Reg(0xee, v3)];
            && InRange(Encode(ops, pad) + (marker + rest))
            && Played(Encode(ops, pad) + (marker + rest))
               == Effects(ops) + [I2cWrite(0xcc, [v2]), I2cWrite(0xee, [v3])] + Played(rest)
  {
    hide Encode, Effects, AllEncodable, Played, InRange, Raw;
    var r1 := [Reg(0xaa, v1), Reg(0xcc, v2), Reg(0xee, v3)] + rest;
    MarkerEntries(v1, v2, v3, rest);
    PlainTable(ops, pad, r1);
    TableRoundTrip(ops, pad, r1);
  }
}

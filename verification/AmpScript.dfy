/** The line-driven interpreter of amplifier scripts, and the grouping of lines into writes it stands for. */
module AmpScript {
  import opened Basics
  import opened HexTokens
  import opened Bus

  const CMD_MAX: nat := 255

  predicate IsWrite(line: string) {
    line != "" && line[0] == 'w'
  }

  predicate IsData(line: string) {
    line != "" && line[0] == '>'
  }

  /** The `w` line whose block is still open after the first `j` lines: only `>` lines followed it. */
  function Open(config: seq<string>, j: nat): (o: Option<nat>)
    requires j <= |config|
    ensures o.Some? ==> o.value < j && IsWrite(config[o.value])
    ensures o.Some? ==> forall i :: o.value < i < j ==> IsData(config[i])
  {
    if j == 0 then None
    else if IsData(config[j - 1]) then Open(config, j - 1)
    else if IsWrite(config[j - 1]) then Some(j - 1)
    else None
  }

  /** Line `j` ends a block. */
  predicate Ends(config: seq<string>, j: nat)
    requires j < |config|
  {
    !IsData(config[j]) && Open(config, j).Some?
  }

  /** The bytes of the open block: three for the `w` line and one for each `>` line. */
  function Used(config: seq<string>, j: nat): (n: nat)
    requires j <= |config|
    ensures n == 0 || 3 <= n
  {
    var o := Open(config, j);
    if o.Some? then j - o.value + 2 else 0
  }

  function Taken(line: string, n: nat): (bytes: seq<Byte>)
    ensures |bytes| <= n
  {
    var all := Tokens(line, 0);
    all[..Min(n, |all|)]
  }

  /** Line `i` stores into byte `p` of the command buffer. */
  predicate Stores(config: seq<string>, i: nat, p: nat)
    requires i < |config|
  {
    || (IsWrite(config[i]) && p < |Taken(config[i], 3)|)
    || (IsData(config[i]) && Open(config, i).Some? && p == Used(config, i) && Tokens(config[i], 0) != [])
  }

  /** Line `j` sends byte `p` of the command buffer. */
  predicate Sends(config: seq<string>, j: nat, p: nat)
    requires j < |config|
  {
    Ends(config, j) && 1 <= p < Used(config, j)
  }

  /** Every byte the script stores or sends lies inside the command buffer. */
  ghost predicate Roomy(config: seq<string>) {
    && (forall i, p :: 0 <= i < |config| && 0 <= p && Stores(config, i, p) ==> p < CMD_MAX)
    && (forall i, p :: 0 <= i < |config| && 0 <= p && Sends(config, i, p) ==> p < CMD_MAX)
  }

  /** Where the block open before line `j` ends, or the script does. */
  lemma {:induction false} BlockEnd(config: seq<string>, o: nat, j: nat) returns (e: nat)
    requires j <= |config| && Open(config, j) == Some(o)
    ensures j <= e <= |config| && Open(config, e) == Some(o) && (e == |config| || Ends(config, e))
    decreases |config| - j
  {
    if j < |config| && IsData(config[j]) {
      e := BlockEnd(config, o, j + 1);
    } else {
      e := j;
    }
  }

  lemma {:induction false} OpenInside(config: seq<string>, o: nat, i: nat, j: nat)
    requires o < i <= j <= |config| && Open(config, j) == Some(o)
    ensures Open(config, i) == Some(o)
    decreases j
  {
    if i < j {
      OpenInside(config, o, i, j - 1);
    }
  }

  lemma {:induction false} SendsInside(config: seq<string>, j: nat)
    requires Roomy(config) && j < |config| && Ends(config, j)
    ensures 3 <= Used(config, j) <= CMD_MAX
  {
    assert Sends(config, j, Used(config, j) - 1);
  }

  lemma {:induction false} StoresInside(config: seq<string>, j: nat)
    requires Roomy(config) && j < |config| && IsData(config[j]) && Open(config, j).Some? && Tokens(config[j], 0) != []
    ensures Used(config, j) < CMD_MAX
  {
    assert Stores(config, j, Used(config, j));
  }

  /** The exact condition on the script under which no byte is stored or sent outside the buffer: each
      ended block has at most 252 `>` lines, and in a block that nothing ends only the first 252 have
      values. */
  lemma {:induction false} RoomyIff(config: seq<string>)
    ensures Roomy(config)
            <==> (forall j :: 0 <= j < |config| && Ends(config, j) ==> j - Open(config, j).value - 1 <= 252)
                 && var last := Open(config, |config|);
                    last.Some? ==> forall i :: last.value < i < |config| && Tokens(config[i], 0) != []
                                               ==> i - last.value <= 252
  {
    hide Tokens, Roomy, Open;
    if Roomy(config) {
      RoomyFits(config);
    }
    if EndedBlocksFit(config) && LastBlockFits(config) {
      FitsRoomy(config);
    }
  }

  ghost predicate EndedBlocksFit(config: seq<string>) {
    forall j :: 0 <= j < |config| && Ends(config, j) ==> Used(config, j) <= CMD_MAX
  }

  ghost predicate LastBlockFits(config: seq<string>) {
    var last := Open(config, |config|);
    last.Some? ==> forall i :: last.value < i < |config| && Tokens(config[i], 0) != [] ==> i - last.value <= 252
  }

  lemma {:induction false} RoomyFits(config: seq<string>)
    requires Roomy(config)
    ensures EndedBlocksFit(config) && LastBlockFits(config)
  {
    hide Tokens, Roomy, Stores, Sends;
    forall j | 0 <= j < |config| && Ends(config, j)
      ensures Used(config, j) <= CMD_MAX
    {
      SendsInside(config, j);
    }
    var last := Open(config, |config|);
    forall i | last.Some? && last.value < i < |config| && Tokens(config[i], 0) != []
      ensures i - last.value <= 252
    {
      OpenInside(config, last.value, i, |config|);
      StoresInside(config, i);
    }
  }

  lemma {:induction false} FitsRoomy(config: seq<string>)
    requires EndedBlocksFit(config) && LastBlockFits(config)
    ensures Roomy(config)
  {
    hide Tokens, Open, Used, EndedBlocksFit, LastBlockFits;
    forall i: nat, p: nat | i < |config| && Stores(config, i, p)
      ensures p < CMD_MAX
    {
      if IsData(config[i]) {
        StoreFits(config, i);
      }
    }
    forall j: nat, p: nat | j < |config| && Sends(config, j, p)
      ensures p < CMD_MAX
    {
      assert Used(config, j) <= CMD_MAX by { EndFits(config, j); }
    }
  }

  lemma {:induction false} EndFits(config: seq<string>, j: nat)
    requires EndedBlocksFit(config) && j < |config| && Ends(config, j)
    ensures Used(config, j) <= CMD_MAX
  {
  }

  lemma {:induction false} StoreFits(config: seq<string>, i: nat)
    requires EndedBlocksFit(config) && LastBlockFits(config) && i < |config|
    requires IsData(config[i]) && Open(config, i).Some? && Tokens(config[i], 0) != []
    ensures Used(config, i) < CMD_MAX
  {
    hide Tokens;
    var e := BlockEnd(config, Open(config, i).value, i + 1);
  }

  /** No block has more than 252 `>` lines, ended or not. */
  ghost predicate Short(config: seq<string>) {
    forall j :: 0 <= j <= |config| && Open(config, j).Some? ==> Used(config, j) <= CMD_MAX
  }

  lemma {:induction false} ShortIsRoomy(config: seq<string>)
    requires Short(config)
    ensures Roomy(config)
  {
    hide Tokens, Taken;
    forall i: nat, p: nat | i < |config| && Stores(config, i, p)
      ensures p < CMD_MAX
    {
      assert IsData(config[i]) && Open(config, i).Some? ==> Used(config, i + 1) == Used(config, i) + 1;
    }
  }

  /** Some block among the first `j` lines was ended by another `w` line. */
  predicate Chained(config: seq<string>, j: nat)
    requires j <= |config|
  {
    j > 0 && (Chained(config, j - 1) || (Ends(config, j - 1) && IsWrite(config[j - 1])))
  }

  /** The first 50 ms pause belongs to the first block that another `w` line ends. */
  function Pause(config: seq<string>, j: nat): seq<Event>
    requires j < |config|
  {
    if IsWrite(config[j]) && !Chained(config, j) then [Delay(50)] else []
  }

  function Overlay(data: seq<Byte>, off: nat, bytes: seq<Byte>): (d: seq<Byte>)
    requires bytes == [] || off + |bytes| <= |data|
    ensures |d| == |data|
  {
    if bytes == [] then data else data[..off] + bytes + data[off + |bytes|..]
  }

  lemma {:induction false} Overlaid(was: seq<Byte>, off: nat, line: string, n: nat, got: nat, now: seq<Byte>)
    requires got == Min(n, |Tokens(line, 0)|) && (got == 0 || off + got <= |was|)
    requires now == if got == 0 then was else was[..off] + Tokens(line, 0)[..got] + was[off + got..]
    ensures now == Overlay(was, off, Taken(line, n))
  {
  }

  /** The command buffer after the first `j` lines; a line with too few values leaves stale bytes. */
  ghost function Buffer(config: seq<string>, init: seq<Byte>, j: nat): (d: seq<Byte>)
    requires |init| == CMD_MAX && Roomy(config) && j <= |config|
    ensures |d| == CMD_MAX
  {
    if j == 0 then init else
      var d := Buffer(config, init, j - 1);
      var line := config[j - 1];
      if IsWrite(line) then Overlay(d, 0, Taken(line, 3))
      else if IsData(line) && Open(config, j - 1).Some? then
        assert Taken(line, 1) != [] ==> Stores(config, j - 1, Used(config, j - 1));
        Overlay(d, Used(config, j - 1), Taken(line, 1))
      else d
  }

  /** What the bus sees of the first `j` lines. */
  ghost function Played(config: seq<string>, init: seq<Byte>, j: nat): seq<Event>
    requires |init| == CMD_MAX && Roomy(config) && j <= |config|
  {
    if j == 0 then [] else
      var before := Played(config, init, j - 1);
      if Ends(config, j - 1) then
        var d := Buffer(config, init, j - 1);
        SendsInside(config, j - 1);
        before + [I2cWrite(d[1], d[2..Used(config, j - 1)])] + Pause(config, j - 1)
      else before
  }

  /** Between lines: what the interpreter's variables hold, and what it has sent. */
  ghost predicate At(config: seq<string>, init: seq<Byte>, j: nat, n: nat, first: bool, d: seq<Byte>, sent: seq<Event>)
    requires |init| == CMD_MAX && Roomy(config) && j <= |config|
  {
    && n == Used(config, j) && (Open(config, j).Some? <==> 3 <= n) && first == Chained(config, j)
    && d == Buffer(config, init, j) && sent == Played(config, init, j)
  }

  lemma {:induction false} StartsAt(config: seq<string>, init: seq<Byte>)
    requires |init| == CMD_MAX && Roomy(config)
    ensures At(config, init, 0, 0, false, init, [])
  {
  }

  lemma {:induction false} EndsInside(config: seq<string>, init: seq<Byte>, j: nat, n: nat, first: bool, d: seq<Byte>,
      sent: seq<Event>)
    requires |init| == CMD_MAX && Roomy(config) && j < |config| && At(config, init, j, n, first, d, sent)
    ensures |d| == CMD_MAX && (n == 0 || 3 <= n) && (3 <= n && !IsData(config[j]) ==> n <= CMD_MAX)
  {
    if 3 <= n && !IsData(config[j]) {
      SendsInside(config, j);
    }
  }

  lemma {:induction false} HeadStep(config: seq<string>, init: seq<Byte>, j: nat, n: nat, first: bool, d: seq<Byte>,
      sent: seq<Event>)
    requires |init| == CMD_MAX && Roomy(config) && j < |config| && At(config, init, j, n, first, d, sent)
    requires IsWrite(config[j]) && |d| == CMD_MAX && (3 <= n ==> n <= CMD_MAX)
    ensures At(config, init, j + 1, 3, first || 3 <= n, Overlay(d, 0, Taken(config[j], 3)),
               if n < 3 then sent
               else sent + [I2cWrite(d[1], d[2..n])] + if first then [] else [Delay(50)])
  {
    hide Tokens, Taken, Overlay;
  }

  lemma {:induction false} DataStep(config: seq<string>, init: seq<Byte>, j: nat, n: nat, first: bool, d: seq<Byte>,
      sent: seq<Event>)
    requires |init| == CMD_MAX && Roomy(config) && j < |config| && At(config, init, j, n, first, d, sent)
    requires IsData(config[j]) && |d| == CMD_MAX
    ensures 3 <= n && Tokens(config[j], 0) != [] ==> n < CMD_MAX
    ensures if n < 3 then At(config, init, j + 1, 0, first, d, sent)
            else At(config, init, j + 1, n + 1, first, Overlay(d, n, Taken(config[j], 1)), sent)
  {
    hide Tokens, Overlay;
    if 3 <= n && Tokens(config[j], 0) != [] {
      StoresInside(config, j);
    }
  }

  lemma {:induction false} OtherStep(config: seq<string>, init: seq<Byte>, j: nat, n: nat, first: bool, d: seq<Byte>,
      sent: seq<Event>)
    requires |init| == CMD_MAX && Roomy(config) && j < |config| && At(config, init, j, n, first, d, sent)
    requires !IsWrite(config[j]) && !IsData(config[j]) && |d| == CMD_MAX && (3 <= n ==> n <= CMD_MAX)
    ensures At(config, init, j + 1, 0, first, d, if n < 3 then sent else sent + [I2cWrite(d[1], d[2..n])])
  {
    hide Tokens, Taken, Overlay;
  }

  /** Plays a script; `cmd` is the freshly allocated command buffer, whatever it holds. */
  method SetConfigFromCode(bus: I2cBus, config: seq<string>, cmd: array<Byte>)
    requires cmd.Length == CMD_MAX && Roomy(config)
    modifies bus, cmd
    ensures bus.trace == old(bus.trace) + Played(config, old(cmd[..]), |config|)
  {
    hide Tokens, Taken, Overlay, At, Roomy, Played, Buffer;
    ghost var init, before, sent := cmd[..], bus.trace, [];
    var preparing, cmdDataLen, firstCmd := false, 0, false;
    var j := 0;
    StartsAt(config, init);
    while j < |config|
      invariant 0 <= j <= |config| && bus.trace == before + sent
      invariant preparing <==> 3 <= cmdDataLen
      invariant At(config, init, j, cmdDataLen, firstCmd, cmd[..], sent)
    {
      var line := config[j];
      ghost var n, first, d, s := cmdDataLen, firstCmd, cmd[..], sent;
      EndsInside(config, init, j, n, first, d, s);
      j := j + 1;
      if IsWrite(line) {
        HeadStep(config, init, j - 1, n, first, d, s);
        if preparing {
          if cmdDataLen >= 3 {
            bus.Put(cmd[1], cmd[2..cmdDataLen]);
            sent := sent + [I2cWrite(cmd[1], cmd[2..cmdDataLen])];
            if !firstCmd {
              firstCmd := true;
              bus.Wait(50);
            }
            sent := sent + if first then [] else [Delay(50)];
          }
        }
        var got := GetValFromString(line, cmd, 0, 3);
        Overlaid(d, 0, line, 3, got, cmd[..]);
        preparing := true;
        cmdDataLen := 3;
      } else if IsData(line) {
        DataStep(config, init, j - 1, n, first, d, s);
        if preparing {
          var got := GetValFromString(line, cmd, cmdDataLen, 1);
          Overlaid(d, cmdDataLen, line, 1, got, cmd[..]);
          cmdDataLen := cmdDataLen + 1;
        }
      } else {
        OtherStep(config, init, j - 1, n, first, d, s);
        if preparing {
          if cmdDataLen >= 3 {
            bus.Put(cmd[1], cmd[2..cmdDataLen]);
            sent := sent + [I2cWrite(cmd[1], cmd[2..cmdDataLen])];
          }
          preparing := false;
          cmdDataLen := 0;
        }
      }
    }
    ArrivesAt(config, init, cmdDataLen, firstCmd, cmd[..], sent);
  }

  lemma {:induction false} ArrivesAt(config: seq<string>, init: seq<Byte>, n: nat, first: bool, d: seq<Byte>,
      sent: seq<Event>)
    requires |init| == CMD_MAX && Roomy(config) && At(config, init, |config|, n, first, d, sent)
    ensures sent == Played(config, init, |config|)
  {
  }

  /** What a line does to the open block, by its first character: `w` opens one, `>` leaves it, anything
      else, an empty line too, leaves none open. */
  lemma {:induction false} LineOpens(config: seq<string>, j: nat)
    requires j < |config|
    ensures var line := config[j];
            && (line != "" && line[0] == 'w' ==> Open(config, j + 1) == Some(j))
            && (line != "" && line[0] == '>' ==> Open(config, j + 1) == Open(config, j))
            && (line == "" || (line[0] != 'w' && line[0] != '>') ==> Open(config, j + 1) == None)
    ensures Open(config, 0) == None
  {
  }

  /** What a line stores: a `w` line its first values into bytes 0 to 2, a `>` line in a block its first
      value into the next byte, any other line nothing. */
  lemma {:induction false} LineStores(config: seq<string>, init: seq<Byte>, j: nat, p: nat)
    requires |init| == 255 && Roomy(config) && j < |config| && p < 255
    ensures Buffer(config, init, 0) == init
    ensures var line, o, values := config[j], Open(config, j), Tokens(config[j], 0);
            Buffer(config, init, j + 1)[p]
            == if line != "" && line[0] == 'w' && p < 3 && p < |values| then values[p]
               else if line != "" && line[0] == '>' && o.Some? && p == j - o.value + 2 && values != [] then values[0]
               else Buffer(config, init, j)[p]
  {
    hide Tokens, Open, Roomy, Overlay;
    var d, line := Buffer(config, init, j), config[j];
    if IsWrite(line) {
      OverlayAt(d, 0, Taken(line, 3), p);
    } else if IsData(line) && Open(config, j).Some? {
      if Tokens(line, 0) != [] {
        StoresInside(config, j);
      }
      OverlayAt(d, Used(config, j), Taken(line, 1), p);
    }
  }

  /** A `w` line among the first `j` has ended a block. */
  ghost predicate Paused(config: seq<string>, j: nat)
    requires j <= |config|
  {
    exists i :: 0 <= i < j && config[i] != "" && config[i][0] == 'w' && Open(config, i).Some?
  }

  lemma {:induction false} ChainedIff(config: seq<string>, j: nat)
    requires j <= |config|
    ensures Chained(config, j) <==> Paused(config, j)
  {
    hide Open;
    if j > 0 {
      ChainedIff(config, j - 1);
    }
  }

  /** What a line sends: nothing when no block is open or for a `>` line; otherwise the open block's write,
      and after the first one that a `w` line sends, a pause of 50 ms. */
  lemma {:induction false} LineSends(config: seq<string>, init: seq<Byte>, j: nat)
    requires |init| == 255 && Roomy(config) && j < |config|
    ensures Played(config, init, 0) == []
    ensures var line, o, d := config[j], Open(config, j), Buffer(config, init, j);
            var before, after := Played(config, init, j), Played(config, init, j + 1);
            if o == None || (line != "" && line[0] == '>') then after == before
            else
              && 3 <= j - o.value + 2 <= 255
              && after == before + [I2cWrite(d[1], d[2..j - o.value + 2])]
                          + if line != "" && line[0] == 'w' && !Paused(config, j) then [Delay(50)] else []
  {
    hide Buffer, Open, Chained;
    ChainedIff(config, j);
    if Ends(config, j) {
      SendsInside(config, j);
    }
  }

  /** One of the first `j` lines stores into byte `p`. */
  ghost predicate Stored(config: seq<string>, j: nat, p: nat)
    requires j <= |config|
  {
    exists i :: 0 <= i < j && Stores(config, i, p)
  }

  /** Some line sends byte `p` before any line has stored into it. */
  ghost predicate Stale(config: seq<string>, p: nat) {
    exists j :: 0 <= j < |config| && Sends(config, j, p) && !Stored(config, j, p)
  }

  lemma {:induction false} StoresOverlay(config: seq<string>, init: seq<Byte>, j: nat, p: nat)
    requires |init| == CMD_MAX && Roomy(config) && 0 < j <= |config| && p < CMD_MAX
    ensures !Stores(config, j - 1, p) ==> Buffer(config, init, j)[p] == Buffer(config, init, j - 1)[p]
    ensures Stores(config, j - 1, p) ==>
              Buffer(config, init, j)[p]
              == Taken(config[j - 1], 3)[if IsWrite(config[j - 1]) then p else 0]
  {
    hide Tokens, Open, Used, Roomy, Overlay;
    var d, line := Buffer(config, init, j - 1), config[j - 1];
    if IsWrite(line) {
      OverlayAt(d, 0, Taken(line, 3), p);
    } else if IsData(line) && Open(config, j - 1).Some? {
      if Tokens(line, 0) != [] {
        StoresInside(config, j - 1);
      }
      OverlayAt(d, Used(config, j - 1), Taken(line, 1), p);
    }
  }

  lemma {:induction false} OverlayAt(data: seq<Byte>, off: nat, bytes: seq<Byte>, p: nat)
    requires (bytes == [] || off + |bytes| <= |data|) && p < |data|
    ensures Overlay(data, off, bytes)[p] == if off <= p < off + |bytes| then bytes[p - off] else data[p]
  {
  }

  /** Whatever two buffers held at the start, they agree on the bytes stored since; the other bytes
      are still what they were. */
  lemma {:induction false} BufferRemembers(config: seq<string>, a: seq<Byte>, b: seq<Byte>, j: nat, p: nat)
    requires |a| == |b| == CMD_MAX && Roomy(config) && j <= |config| && p < CMD_MAX
    ensures Stored(config, j, p) ==> Buffer(config, a, j)[p] == Buffer(config, b, j)[p]
    ensures !Stored(config, j, p) ==> Buffer(config, a, j)[p] == a[p]
  {
    hide Buffer, Stores, Taken;
    if j == 0 {
      BufferStarts(config, a);
    } else {
      BufferRemembers(config, a, b, j - 1, p);
      StoresOverlay(config, a, j, p);
      StoresOverlay(config, b, j, p);
    }
  }

  lemma {:induction false} BufferStarts(config: seq<string>, init: seq<Byte>)
    requires |init| == CMD_MAX && Roomy(config)
    ensures Buffer(config, init, 0) == init
  {
  }

  /** `a` and `b` agree on every byte that one of the first `j` lines sends unstored. */
  ghost predicate AgreeWhereStale(config: seq<string>, a: seq<Byte>, b: seq<Byte>, j: nat)
    requires |a| == |b| == CMD_MAX && j <= |config|
  {
    forall i, p :: 0 <= i < j && 0 <= p < CMD_MAX && Sends(config, i, p) && !Stored(config, i, p) ==> a[p] == b[p]
  }

  /** Line `j` sends the same bytes from both buffers exactly when they agree where it sends unstored bytes. */
  lemma {:induction false} SameWriteIff(config: seq<string>, a: seq<Byte>, b: seq<Byte>, j: nat)
    requires |a| == |b| == CMD_MAX && Roomy(config) && j < |config| && Ends(config, j)
    ensures 3 <= Used(config, j) <= CMD_MAX
    ensures var d, e, n := Buffer(config, a, j), Buffer(config, b, j), Used(config, j);
            I2cWrite(d[1], d[2..n]) == I2cWrite(e[1], e[2..n])
            <==> forall p :: 0 <= p < CMD_MAX && Sends(config, j, p) && !Stored(config, j, p) ==> a[p] == b[p]
  {
    hide Buffer, Stored, Open;
    SendsInside(config, j);
    var d, e, n := Buffer(config, a, j), Buffer(config, b, j), Used(config, j);
    forall p | 0 <= p < CMD_MAX
      ensures Stored(config, j, p) ==> d[p] == e[p]
      ensures !Stored(config, j, p) ==> d[p] == a[p] && e[p] == b[p]
    {
      BufferRemembers(config, a, b, j, p);
      BufferRemembers(config, b, a, j, p);
    }
    SameBytesIff(d, e, n);
    assert forall p :: 1 <= p < n <==> 0 <= p < CMD_MAX && Sends(config, j, p);
  }

  lemma {:induction false} SameBytesIff(d: seq<Byte>, e: seq<Byte>, n: nat)
    requires 2 <= n <= |d| == |e|
    ensures I2cWrite(d[1], d[2..n]) == I2cWrite(e[1], e[2..n]) <==> forall p :: 1 <= p < n ==> d[p] == e[p]
  {
    if d[2..n] == e[2..n] {
      forall p | 2 <= p < n
        ensures d[p] == e[p]
      {
        assert d[2..n][p - 2] == e[2..n][p - 2];
      }
    }
  }

  lemma {:induction false} SameTraceIff(config: seq<string>, a: seq<Byte>, b: seq<Byte>, j: nat)
    requires |a| == |b| == CMD_MAX && Roomy(config) && j <= |config|
    ensures |Played(config, a, j)| == |Played(config, b, j)|
    ensures Played(config, a, j) == Played(config, b, j) <==> AgreeWhereStale(config, a, b, j)
  {
    hide Buffer, Stored, Open, Used, Pause;
    if j > 0 {
      SameTraceIff(config, a, b, j - 1);
      AgreeStep(config, a, b, j);
      if Ends(config, j - 1) {
        SameWriteIff(config, a, b, j - 1);
        var before, before' := Played(config, a, j - 1), Played(config, b, j - 1);
        var d, e, n := Buffer(config, a, j - 1), Buffer(config, b, j - 1), Used(config, j - 1);
        AppendSame(before, before', I2cWrite(d[1], d[2..n]), I2cWrite(e[1], e[2..n]), Pause(config, j - 1));
      }
    }
  }

  lemma {:induction false} AppendSame<T>(a: seq<T>, b: seq<T>, x: T, y: T, rest: seq<T>)
    requires |a| == |b|
    ensures a + [x] + rest == b + [y] + rest <==> a == b && x == y
  {
    if a + [x] + rest == b + [y] + rest {
      assert a == (a + [x] + rest)[..|a|] && b == (b + [y] + rest)[..|a|];
      assert x == (a + [x] + rest)[|a|] && y == (b + [y] + rest)[|a|];
    }
  }

  lemma {:induction false} AgreeStep(config: seq<string>, a: seq<Byte>, b: seq<Byte>, j: nat)
    requires |a| == |b| == CMD_MAX && 0 < j <= |config|
    ensures AgreeWhereStale(config, a, b, j) <==>
            AgreeWhereStale(config, a, b, j - 1)
            && forall p :: 0 <= p < CMD_MAX && Sends(config, j - 1, p) && !Stored(config, j - 1, p) ==> a[p] == b[p]
  {
    hide Sends, Stored;
  }

  /** Two starting buffers give the same trace exactly when they agree on the stale bytes. */
  lemma {:induction false} TraceShowsStaleBytes(config: seq<string>, a: seq<Byte>, b: seq<Byte>)
    requires |a| == |b| == CMD_MAX && Roomy(config)
    ensures Played(config, a, |config|) == Played(config, b, |config|)
            <==> forall p :: 0 <= p < CMD_MAX && Stale(config, p) ==> a[p] == b[p]
  {
    hide Sends, Stored, Buffer, Played;
    SameTraceIff(config, a, b, |config|);
  }

  /** The exact condition under which the bus never sees what the fresh buffer happened to hold: every
      byte a line sends has been stored by a line before it. */
  lemma {:induction false} TraceIgnoresBufferIff(config: seq<string>)
    requires Roomy(config)
    ensures (forall a, b :: |a| == |b| == CMD_MAX ==> Played(config, a, |config|) == Played(config, b, |config|))
            <==> forall j: nat, p: nat :: j < |config| && Sends(config, j, p) ==> Stored(config, j, p)
  {
    hide Stored, Buffer, Played, Open;
    var n := |config|;
    if forall j: nat, p: nat :: j < n && Sends(config, j, p) ==> Stored(config, j, p) {
      forall a, b | |a| == |b| == CMD_MAX
        ensures Played(config, a, n) == Played(config, b, n)
      {
        TraceShowsStaleBytes(config, a, b);
      }
    } else {
      var j: nat, p: nat :| j < n && Sends(config, j, p) && !Stored(config, j, p);
      SendsInside(config, j);
      var a := seq<Byte>(CMD_MAX, i => 0);
      TraceShowsStaleBytes(config, a, a[p := 1]);
      assert Stale(config, p);
    }
  }

  /** Some line ends the block that `w` line `o` opens. */
  ghost predicate Ended(config: seq<string>, o: nat) {
    exists e :: o < e < |config| && Ends(config, e) && Open(config, e) == Some(o)
  }

  /** Every block is ended, and with that sent, exactly when the script leaves none open. */
  lemma {:induction false} EveryBlockEndsIff(config: seq<string>)
    ensures (forall o :: 0 <= o < |config| && IsWrite(config[o]) ==> Ended(config, o))
            <==> Open(config, |config|).None?
  {
    var last := Open(config, |config|);
    if last.Some? {
      assert IsWrite(config[last.value]) && !Ended(config, last.value);
    } else {
      forall o | 0 <= o < |config| && IsWrite(config[o])
        ensures Ended(config, o)
      {
        var e := BlockEnd(config, o, o + 1);
      }
    }
  }

  function WriteCount(trace: seq<Event>): nat {
    if trace == [] then 0 else
      var last := |trace| - 1;
      WriteCount(trace[..last]) + if trace[last].I2cWrite? then 1 else 0
  }

  function HeadCount(config: seq<string>, j: nat): nat
    requires j <= |config|
  {
    if j == 0 then 0 else HeadCount(config, j - 1) + if IsWrite(config[j - 1]) then 1 else 0
  }

  /** Each `w` line among the first `j` has been sent once, or is the one still open. */
  lemma {:induction false} WritesBalance(config: seq<string>, init: seq<Byte>, j: nat)
    requires |init| == CMD_MAX && Roomy(config) && j <= |config|
    ensures WriteCount(Played(config, init, j)) + (if Open(config, j).Some? then 1 else 0) == HeadCount(config, j)
  {
    hide Buffer, WriteCount, Chained;
    if j == 0 {
      CountNothing();
    } else {
      WritesBalance(config, init, j - 1);
      if Ends(config, j - 1) {
        SendsInside(config, j - 1);
        var d, n := Buffer(config, init, j - 1), Used(config, j - 1);
        CountMore(Played(config, init, j - 1), I2cWrite(d[1], d[2..n]), Pause(config, j - 1));
      }
    }
  }

  lemma {:induction false} CountNothing()
    ensures WriteCount([]) == 0
  {
  }

  lemma {:induction false} CountMore(trace: seq<Event>, write: Event, pause: seq<Event>)
    requires write.I2cWrite? && (pause == [] || pause == [Delay(50)])
    ensures WriteCount(trace + [write] + pause) == WriteCount(trace) + 1
  {
    assert (trace + [write])[..|trace|] == trace;
    if pause == [] {
      assert trace + [write] + pause == trace + [write];
    } else {
      assert (trace + [write] + pause)[..|trace| + 1] == trace + [write];
    }
  }

  /** As many writes as `w` lines reach the bus exactly when the script leaves no block open. */
  lemma {:induction false} EveryBlockSentIff(config: seq<string>, init: seq<Byte>)
    requires |init| == CMD_MAX && Roomy(config)
    ensures WriteCount(Played(config, init, |config|)) == HeadCount(config, |config|)
            <==> Open(config, |config|).None?
  {
    WritesBalance(config, init, |config|);
  }

  /** Each `w` line carries three values and each `>` line of a block one. */
  ghost predicate WellFormed(config: seq<string>) {
    && (forall i :: 0 <= i < |config| && IsWrite(config[i]) ==> 3 <= |Tokens(config[i], 0)|)
    && (forall i :: 0 <= i < |config| && IsData(config[i]) && Open(config, i).Some? ==> 1 <= |Tokens(config[i], 0)|)
  }

  /** The write a block stands for: register and first byte from the `w` line, then one byte a `>` line. */
  ghost function BlockWrite(config: seq<string>, o: nat, e: nat): Event
    requires WellFormed(config) && o < e <= |config| && Open(config, e) == Some(o)
  {
    var head := Tokens(config[o], 0);
    I2cWrite(head[1], [head[2]] + DataBytes(config, o, e))
  }

  ghost function DataBytes(config: seq<string>, o: nat, e: nat): (bytes: seq<Byte>)
    requires WellFormed(config) && o < e <= |config| && Open(config, e) == Some(o)
    ensures |bytes| == e - o - 1
    decreases e
  {
    if e == o + 1 then [] else
      assert IsData(config[e - 1]);
      DataBytes(config, o, e - 1) + [Tokens(config[e - 1], 0)[0]]
  }

  /** The blocks of the first `j` lines that some line has ended, in order. */
  ghost function Blocks(config: seq<string>, j: nat): seq<Event>
    requires WellFormed(config) && j <= |config|
  {
    if j == 0 then []
    else if Ends(config, j - 1) then
      Blocks(config, j - 1) + [BlockWrite(config, Open(config, j - 1).value, j - 1)] + Pause(config, j - 1)
    else Blocks(config, j - 1)
  }

  lemma {:induction false} BufferAfterHead(config: seq<string>, init: seq<Byte>, j: nat)
    requires |init| == CMD_MAX && Roomy(config) && WellFormed(config) && 0 < j <= |config|
    requires Open(config, j) == Some(j - 1)
    ensures Buffer(config, init, j)[..3] == Tokens(config[j - 1], 0)[..3] && Used(config, j) == 3
  {
    hide Tokens;
    assert Taken(config[j - 1], 3) == Tokens(config[j - 1], 0)[..3];
  }

  lemma {:induction false} BufferAfterData(config: seq<string>, init: seq<Byte>, o: nat, j: nat)
    requires |init| == CMD_MAX && Roomy(config) && WellFormed(config) && o + 1 < j <= |config|
    requires Open(config, j) == Some(o)
    ensures Open(config, j - 1) == Some(o) && Used(config, j) == Used(config, j - 1) + 1 <= CMD_MAX
    ensures 1 <= |Tokens(config[j - 1], 0)|
    ensures var n := Used(config, j - 1);
            Buffer(config, init, j)[..n + 1] == Buffer(config, init, j - 1)[..n] + [Tokens(config[j - 1], 0)[0]]
  {
    hide Tokens;
    StoresInside(config, j - 1);
    assert Taken(config[j - 1], 1) == [Tokens(config[j - 1], 0)[0]];
  }

  /** While a block is open, the buffer starts with that block's bytes. */
  lemma {:induction false} BufferHoldsBlock(config: seq<string>, init: seq<Byte>, j: nat)
    requires |init| == CMD_MAX && Roomy(config) && WellFormed(config) && j <= |config|
    requires Open(config, j).Some?
    ensures 3 <= Used(config, j) <= CMD_MAX
    ensures var o := Open(config, j).value;
            Buffer(config, init, j)[..Used(config, j)] == Tokens(config[o], 0)[..3] + DataBytes(config, o, j)
    decreases j
  {
    hide Tokens, Buffer, Open, Used, WellFormed;
    var o := Open(config, j).value;
    if o == j - 1 {
      BufferAfterHead(config, init, j);
    } else {
      BufferAfterData(config, init, o, j);
      BufferHoldsBlock(config, init, j - 1);
    }
  }

  lemma {:induction false} FlushedIsBlock(config: seq<string>, init: seq<Byte>, j: nat)
    requires |init| == CMD_MAX && Roomy(config) && WellFormed(config) && j <= |config|
    requires Open(config, j).Some?
    ensures 3 <= Used(config, j) <= CMD_MAX
    ensures var d := Buffer(config, init, j);
            I2cWrite(d[1], d[2..Used(config, j)]) == BlockWrite(config, Open(config, j).value, j)
  {
    hide Tokens, Buffer, Open, Used;
    BufferHoldsBlock(config, init, j);
    var o, n := Open(config, j).value, Used(config, j);
    var d, head := Buffer(config, init, j), Tokens(config[o], 0);
    assert d[..n][1] == d[1] && d[..n][2..] == d[2..n];
    assert (head[..3] + DataBytes(config, o, j))[2..] == [head[2]] + DataBytes(config, o, j);
  }

  /** For a well-formed script the bus sees exactly the ended blocks, in order, whatever the buffer
      held at the start; a block nothing ends is not sent. */
  lemma {:induction false} ScriptPlaysBlocks(config: seq<string>, init: seq<Byte>, j: nat)
    requires |init| == CMD_MAX && Roomy(config) && WellFormed(config) && j <= |config|
    ensures Played(config, init, j) == Blocks(config, j)
  {
    hide Tokens, Buffer, Used, Chained, WellFormed;
    if j > 0 {
      ScriptPlaysBlocks(config, init, j - 1);
      if Ends(config, j - 1) {
        FlushedIsBlock(config, init, j - 1);
      }
    }
  }

  /** A register write and its script: a `w` line with the device address, then one `>` line a byte. */
  datatype Write = Write(reg: Byte, first: Byte, rest: seq<Byte>)

  function Lines(addr: Byte, w: Write): (lines: seq<string>)
    ensures |lines| == 1 + |w.rest|
    ensures IsWrite(lines[0]) && forall i :: 1 <= i < |lines| ==> IsData(lines[i])
  {
    ["w" + Printed([addr, w.reg, w.first])]
    + seq(|w.rest|, i requires 0 <= i < |w.rest| => ">" + Printed([w.rest[i]]))
  }

  /** The script of a list of writes, closed by an empty line. */
  function Script(addr: Byte, ws: seq<Write>): seq<string> {
    Body(addr, ws) + [""]
  }

  function Body(addr: Byte, ws: seq<Write>): seq<string> {
    if ws == [] then [] else Body(addr, ws[..|ws| - 1]) + Lines(addr, ws[|ws| - 1])
  }

  function EventOf(w: Write): Event {
    I2cWrite(w.reg, [w.first] + w.rest)
  }

  /** The writes, each a bus event, with the one pause after the first when another follows it. */
  function Replay(ws: seq<Write>): seq<Event> {
    if ws == [] then [] else Sent(ws[..|ws| - 1]) + [EventOf(ws[|ws| - 1])]
  }

  /** Writes that another `w` line ended. */
  function Sent(ws: seq<Write>): seq<Event> {
    if ws == [] then [] else
      Sent(ws[..|ws| - 1]) + [EventOf(ws[|ws| - 1])] + (if |ws| == 1 then [Delay(50)] else [])
  }

  /** A printed line reads back, whatever its first character. */
  lemma {:induction false} LineTokens(c: char, bytes: seq<Byte>)
    requires c != ' '
    ensures Tokens([c] + Printed(bytes), 0) == bytes
  {
    var line := [c] + Printed(bytes);
    assert line[1..] == Printed(bytes);
    TokensOfPrinted(line, 1, bytes);
    SpacesSkip(line, 0, 1);
  }

  lemma {:induction false} LinesTokens(addr: Byte, w: Write)
    ensures Tokens(Lines(addr, w)[0], 0) == [addr, w.reg, w.first]
    ensures forall i :: 0 <= i < |w.rest| ==> Tokens(Lines(addr, w)[1 + i], 0) == [w.rest[i]]
  {
    hide Tokens, Printed;
    LineTokens('w', [addr, w.reg, w.first]);
    forall i | 0 <= i < |w.rest|
      ensures Tokens(Lines(addr, w)[1 + i], 0) == [w.rest[i]]
    {
      LineTokens('>', [w.rest[i]]);
    }
  }

  /** Lines further down change nothing about the first `j`. */
  lemma {:induction false} OpenPrefix(a: seq<string>, b: seq<string>, j: nat)
    requires j <= |a|
    ensures Open(a + b, j) == Open(a, j) && Chained(a + b, j) == Chained(a, j)
  {
    if j > 0 {
      OpenPrefix(a, b, j - 1);
      assert (a + b)[j - 1] == a[j - 1];
    }
  }

  lemma {:induction false} DataPrefix(a: seq<string>, b: seq<string>, o: nat, j: nat)
    requires WellFormed(a) && WellFormed(a + b) && o < j <= |a| && Open(a, j) == Some(o)
    ensures Open(a + b, j) == Some(o) && DataBytes(a + b, o, j) == DataBytes(a, o, j)
    ensures BlockWrite(a + b, o, j) == BlockWrite(a, o, j)
    decreases j
  {
    OpenPrefix(a, b, j);
    if o + 1 < j {
      DataPrefix(a, b, o, j - 1);
    }
  }

  lemma {:induction false} BlocksPrefix(a: seq<string>, b: seq<string>, j: nat)
    requires WellFormed(a) && WellFormed(a + b) && j <= |a|
    ensures Blocks(a + b, j) == Blocks(a, j)
  {
    hide Tokens, WellFormed, Open, Chained, DataBytes, BlockWrite;
    if j > 0 {
      BlocksPrefix(a, b, j - 1);
      OpenPrefix(a, b, j - 1);
      if Open(a, j - 1).Some? {
        DataPrefix(a, b, Open(a, j - 1).value, j - 1);
      }
    }
  }

  /** Where a printed body leaves the interpreter. */
  ghost predicate LeftAt(addr: Byte, ws: seq<Write>) {
    var config := Body(addr, ws);
    && WellFormed(config) && Short(config)
    && (Chained(config, |config|) <==> 2 <= |ws|)
    && if ws == [] then config == [] else
         var last := |ws| - 1;
         var o := |Body(addr, ws[..last])|;
         && Open(config, |config|) == Some(o)
         && BlockWrite(config, o, |config|) == EventOf(ws[last])
         && Blocks(config, |config|) == Sent(ws[..last])
  }

  /** The events a `w` line adds when it follows the lines `a`. */
  ghost function Flush(a: seq<string>): seq<Event>
    requires WellFormed(a)
  {
    var o := Open(a, |a|);
    if o.Some? then
      [BlockWrite(a, o.value, |a|)] + (if Chained(a, |a|) then [] else [Delay(50)])
    else []
  }

  lemma {:induction false} AfterHead(a: seq<string>, b: seq<string>)
    requires WellFormed(a) && WellFormed(a + b) && b != [] && IsWrite(b[0])
    ensures var config, j := a + b, |a| + 1;
            && Open(config, j) == Some(|a|) && DataBytes(config, |a|, j) == []
            && (Chained(config, j) <==> Chained(a, |a|) || Open(a, |a|).Some?)
            && Blocks(config, j) == Blocks(a, |a|) + Flush(a)
  {
    hide Tokens, WellFormed, BlockWrite;
    OpenPrefix(a, b, |a|);
    BlocksPrefix(a, b, |a|);
    if Open(a, |a|).Some? {
      DataPrefix(a, b, Open(a, |a|).value, |a|);
    }
  }

  predicate Datum(config: seq<string>, j: nat, b: Byte)
    requires j < |config|
  {
    IsData(config[j]) && Tokens(config[j], 0) == [b]
  }

  /** Data lines leave everything but the open block's bytes alone. */
  lemma {:induction false} AfterData(config: seq<string>, o: nat, i: nat, rest: seq<Byte>)
    requires WellFormed(config) && o + 1 + i <= |config| && i <= |rest|
    requires Open(config, o + 1) == Some(o)
    requires forall k :: 0 <= k < i ==> Datum(config, o + 1 + k, rest[k])
    ensures var j := o + 1 + i;
            && Open(config, j) == Some(o) && DataBytes(config, o, j) == rest[..i]
            && Chained(config, j) == Chained(config, o + 1) && Blocks(config, j) == Blocks(config, o + 1)
  {
    hide Tokens, WellFormed;
    if i > 0 {
      AfterData(config, o, i - 1, rest);
      assert Datum(config, o + i, rest[i - 1]);
      assert rest[..i] == rest[..i - 1] + [rest[i - 1]];
    }
  }

  /** Appending a printed block flushes the block before it and leaves the new one open. */
  lemma {:induction false} BlockAppended(a: seq<string>, addr: Byte, w: Write)
    requires WellFormed(a) && WellFormed(a + Lines(addr, w))
    ensures var config := a + Lines(addr, w);
            && Open(config, |config|) == Some(|a|) && BlockWrite(config, |a|, |config|) == EventOf(w)
            && (Chained(config, |config|) <==> Chained(a, |a|) || Open(a, |a|).Some?)
            && Blocks(config, |config|) == Blocks(a, |a|) + Flush(a)
  {
    hide Tokens, WellFormed, Open, Chained, Blocks, DataBytes, Lines, Flush;
    var b := Lines(addr, w);
    var config := a + b;
    AfterHead(a, b);
    LinesTokens(addr, w);
    forall k | 0 <= k < |w.rest|
      ensures Datum(config, |a| + 1 + k, w.rest[k])
    {
      assert config[|a| + 1 + k] == b[1 + k];
    }
    AfterData(config, |a|, |w.rest|, w.rest);
    assert config[|a|] == b[0];
  }

  /** Printed bodies are well formed and fit the command buffer. */
  lemma {:induction false} BodyIsWellFormed(addr: Byte, ws: seq<Write>)
    requires forall i :: 0 <= i < |ws| ==> |ws[i].rest| <= 252
    ensures WellFormed(Body(addr, ws)) && Short(Body(addr, ws))
    decreases |ws|
  {
    if ws != [] {
      var last := |ws| - 1;
      BodyIsWellFormed(addr, ws[..last]);
      BlockFits(Body(addr, ws[..last]), addr, ws[last]);
    }
  }

  lemma {:induction false} BlockFits(a: seq<string>, addr: Byte, w: Write)
    requires WellFormed(a) && Short(a) && |w.rest| <= 252
    ensures WellFormed(a + Lines(addr, w)) && Short(a + Lines(addr, w))
  {
    hide Tokens, Open, Used, Lines;
    var b := Lines(addr, w);
    LinesTokens(addr, w);
    forall i | 0 <= i < |a|
      ensures (a + b)[i] == a[i] && Open(a + b, i) == Open(a, i)
    {
      OpenPrefix(a, b, i);
    }
    forall i | 0 < i < |b|
      ensures Tokens(b[i], 0) == [w.rest[i - 1]]
    {
      assert 1 + (i - 1) == i;
    }
    assert forall i :: |a| <= i < |a + b| ==> (a + b)[i] == b[i - |a|];
    assert WellFormed(a + b);
    forall j | 0 <= j <= |a + b| && Open(a + b, j).Some?
      ensures Used(a + b, j) <= CMD_MAX
    {
      UsedFits(a, b, j);
    }
  }

  lemma {:induction false} UsedFits(a: seq<string>, b: seq<string>, j: nat)
    requires Short(a) && b != [] && |b| <= 253 && IsWrite(b[0]) && j <= |a + b| && Open(a + b, j).Some?
    ensures Used(a + b, j) <= CMD_MAX
  {
    if j <= |a| {
      OpenPrefix(a, b, j);
      assert Used(a + b, j) == Used(a, j);
    } else {
      assert (a + b)[|a|] == b[0];
      OpenFrom(a + b, |a|, j);
    }
  }

  /** A block open after line `o`, a `w` line, or later, starts at `o` or later. */
  lemma {:induction false} OpenFrom(config: seq<string>, o: nat, j: nat)
    requires o < j <= |config| && IsWrite(config[o]) && Open(config, j).Some?
    ensures o <= Open(config, j).value
    decreases j
  {
    if j > o + 1 && IsData(config[j - 1]) {
      OpenFrom(config, o, j - 1);
    }
  }

  lemma {:induction false} BodyLeaves(addr: Byte, ws: seq<Write>)
    requires forall i :: 0 <= i < |ws| ==> |ws[i].rest| <= 252
    ensures LeftAt(addr, ws)
    decreases |ws|
  {
    hide Tokens, WellFormed, Short, BlockWrite, DataBytes, Lines, Open, Chained, EventOf;
    BodyIsWellFormed(addr, ws);
    if ws == [] {
      EmptyBody(addr, ws);
    } else {
      var last := |ws| - 1;
      BodyLeaves(addr, ws[..last]);
      EmptyBody(addr, ws[..last]);
      BlockAppended(Body(addr, ws[..last]), addr, ws[last]);
    }
  }

  lemma {:induction false} EmptyBody(addr: Byte, ws: seq<Write>)
    ensures ws == [] ==> Body(addr, ws) == [] && !Chained([], 0) && Open([], 0) == None && Blocks([], 0) == []
  {
  }

  /** A script's round trip: playing the printed form of any writes sends those writes, in order. */
  lemma {:induction false} ScriptRoundTrip(addr: Byte, ws: seq<Write>, init: seq<Byte>)
    requires |init| == CMD_MAX && forall i :: 0 <= i < |ws| ==> |ws[i].rest| <= 252
    ensures Roomy(Script(addr, ws))
    ensures Played(Script(addr, ws), init, |Script(addr, ws)|) == Replay(ws)
  {
    hide Tokens, Body, WellFormed, Short, BlockWrite, DataBytes, Played, Sent, EventOf;
    var body, config := Body(addr, ws), Script(addr, ws);
    BodyLeaves(addr, ws);
    EmptyBody(addr, ws);
    EndingFits(body);
    ShortIsRoomy(config);
    ScriptPlaysBlocks(config, init, |config|);
    OpenPrefix(body, [""], |body|);
    BlocksPrefix(body, [""], |body|);
    if ws != [] {
      DataPrefix(body, [""], Open(body, |body|).value, |body|);
    }
  }

  /** Without a closing line the last write is not sent. */
  lemma {:induction false} UnclosedScriptDropsLast(addr: Byte, ws: seq<Write>, init: seq<Byte>)
    requires |init| == CMD_MAX && ws != [] && forall i :: 0 <= i < |ws| ==> |ws[i].rest| <= 252
    ensures Roomy(Body(addr, ws))
    ensures Played(Body(addr, ws), init, |Body(addr, ws)|) == Sent(ws[..|ws| - 1])
  {
    BodyLeaves(addr, ws);
    ShortIsRoomy(Body(addr, ws));
    ScriptPlaysBlocks(Body(addr, ws), init, |Body(addr, ws)|);
  }

  /** A `w` line with too few values sends what the buffer happened to hold. */
  lemma {:induction false} ShortLineSendsStaleByte(addr: Byte, reg: Byte, init: seq<Byte>)
    requires |init| == CMD_MAX
    ensures var config := ["w" + Printed([addr, reg]), ""];
            Roomy(config) && Played(config, init, 2) == [I2cWrite(reg, [init[2]])]
  {
    hide Tokens, Printed;
    var config := ["w" + Printed([addr, reg]), ""];
    LineTokens('w', [addr, reg]);
    assert Open(config, 0) == None && Open(config, 1) == Some(0) && Open(config, 2) == None;
    assert Taken(config[0], 3) == [addr, reg];
    assert Buffer(config, init, 1) == Overlay(init, 0, [addr, reg]);
    assert Overlay(init, 0, [addr, reg])[2..3] == [init[2]];
    assert Played(config, init, 0) == [] && Played(config, init, 1) == [];
  }

  lemma {:induction false} EndingFits(a: seq<string>)
    requires WellFormed(a) && Short(a)
    ensures WellFormed(a + [""]) && Short(a + [""])
  {
    forall j | 0 <= j <= |a|
      ensures Open(a + [""], j) == Open(a, j) && Used(a + [""], j) == Used(a, j)
    {
      OpenPrefix(a, [""], j);
    }
    forall i | 0 <= i < |a|
      ensures (a + [""])[i] == a[i]
    {
    }
  }
}

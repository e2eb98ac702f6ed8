/** The recorder upload: numbered frames of at most 512 bytes behind a 40-byte header. A byte is a `char`. */
module ResultOut {
  import opened Basics

  const UART_OUT_SIZE: nat := 512
  const RECORDER_HEAD: nat := 40

  predicate IsDigit(c: char) {
    '0' <= c <= '9'
  }

  function Decimal(n: nat): (s: string)
    ensures s != "" && forall i :: 0 <= i < |s| ==> IsDigit(s[i])
  {
    var last := ['0' + (n % 10) as char];
    if n < 10 then last else Decimal(n / 10) + last
  }

  /** What `snprintf` is asked to print: "%srecord %d %d ". */
  function HeaderText(testCase: string, length: nat, idx: nat): string {
    Lead(testCase) + Numbers(length, idx)
  }

  function Lead(testCase: string): string {
    testCase + "record "
  }

  function Numbers(length: nat, idx: nat): string {
    Decimal(length) + " " + (Decimal(idx) + " ")
  }

  /** A header buffer after `snprintf`: the text cut to 39 characters, a terminator, then anything. */
  ghost predicate HoldsText(head: string, text: string) {
    var k := Min(RECORDER_HEAD - 1, |text|);
    |head| == RECORDER_HEAD && head[..k] == text[..k] && head[k] == '\0'
  }

  ghost predicate IsFrame(frame: string, testCase: string, data: string, idx: nat) {
    && |frame| == RECORDER_HEAD + |data| + 1
    && HoldsText(frame[..RECORDER_HEAD], HeaderText(testCase, |data|, idx))
    && frame[RECORDER_HEAD..RECORDER_HEAD + |data|] == data
    && frame[RECORDER_HEAD + |data|] == '\n'
  }

  /** What `%d` prints: decimal digits, the first not a needless zero. */
  lemma {:induction false} DecimalIs(n: nat)
    ensures n < 10 ==> Decimal(n) == ["0123456789"[n]]
    ensures 10 <= n ==> Decimal(n) == Decimal(n / 10) + ["0123456789"[n % 10]]
  {
    assert forall d :: 0 <= d < 10 ==> "0123456789"[d] == '0' + d as char;
  }

  /** A frame, written out: 40 header bytes that hold "<case>record <length> <index> " cut to 39 characters
      and a terminator, then the payload, then a newline. */
  lemma {:induction false} FrameIff(frame: string, testCase: string, data: string, idx: nat)
    ensures IsFrame(frame, testCase, data, idx)
            <==> var text := testCase + "record " + Decimal(|data|) + " " + Decimal(idx) + " ";
                 var k := if |text| < 39 then |text| else 39;
                 && |frame| == 40 + |data| + 1
                 && frame[..k] == text[..k] && frame[k] == '\0'
                 && frame[40..40 + |data|] == data && frame[40 + |data|] == '\n'
  {
    hide Decimal;
    NumberPrinted(testCase, |data|, idx);
    if |frame| == 40 + |data| + 1 {
      var text := HeaderText(testCase, |data|, idx);
      var k := if |text| < 39 then |text| else 39;
      assert frame[..40][..k] == frame[..k];
    }
  }

  /** `frame` starts with `lead`, cut to 39 characters. */
  predicate StartsWith(frame: string, lead: string) {
    var k := if |lead| < 39 then |lead| else 39;
    k <= |frame| && frame[..k] == lead[..k]
  }

  lemma {:induction false} FrameStarts(frame: string, testCase: string, data: string, idx: nat)
    requires IsFrame(frame, testCase, data, idx)
    ensures StartsWith(frame, testCase + "record ")
  {
    hide Decimal;
    FrameIff(frame, testCase, data, idx);
    var lead := testCase + "record ";
    var text := lead + Decimal(|data|) + " " + Decimal(idx) + " ";
    var k, m := if |lead| < 39 then |lead| else 39, if |text| < 39 then |text| else 39;
    assert frame[..m][..k] == frame[..k] && text[..m][..k] == text[..k] == lead[..k];
  }

  /** The parts of a recording that are sent. */
  function Pieces(data: string): (p: seq<string>)
    ensures |data| < UART_OUT_SIZE ==> p == [data]
    ensures UART_OUT_SIZE <= |data| ==> |p| == |data| / UART_OUT_SIZE
  {
    if |data| < UART_OUT_SIZE then [data] else
      seq(|data| / UART_OUT_SIZE, k requires 0 <= k < |data| / UART_OUT_SIZE => Piece(data, k))
  }

  function Piece(data: string, k: nat): string
    requires k < |data| / UART_OUT_SIZE
  {
    data[UART_OUT_SIZE * k..UART_OUT_SIZE * k + UART_OUT_SIZE]
  }

  class Recorder {
    var gIdx: nat
    /** Everything written to the serial line, and the frames in it. */
    ghost var out: string
    ghost var frames: seq<string>

    constructor ()
      ensures gIdx == 0 && out == "" && frames == []
    {
      gIdx := 0;
      out, frames := "", [];
    }

    /** `snprintf` into a fresh stack buffer, whose tail keeps what it held. */
    method Header(text: string) returns (head: array<char>)
      ensures fresh(head) && HoldsText(head[..], text)
    {
      head := new char[RECORDER_HEAD];
      var k := Min(RECORDER_HEAD - 1, |text|);
      forall i | 0 <= i < k {
        head[i] := text[i];
      }
      head[k] := '\0';
    }

    /** Sends one frame; the frame buffer's allocation is taken to succeed. */
    method OutPrintData(testCase: string, data: string)
      modifies this
      ensures gIdx == old(gIdx) + 1
      ensures |frames| == |old(frames)| + 1 && frames[..|old(frames)|] == old(frames)
      ensures IsFrame(frames[|old(frames)|], testCase, data, old(gIdx))
      ensures StartsWith(frames[|old(frames)|], testCase + "record ")
      ensures out == old(out) + frames[|old(frames)|]
    {
      var head := Header(HeaderText(testCase, |data|, gIdx));
      gIdx := gIdx + 1;
      var protoData := head[..] + data + "\n";
      assert protoData[..RECORDER_HEAD] == head[..];
      assert protoData[RECORDER_HEAD..RECORDER_HEAD + |data|] == data;
      FrameStarts(protoData, testCase, data, gIdx - 1);
      out := out + protoData;
      frames := frames + [protoData];
    }

    method DataOutExec(testCase: string, data: string)
      modifies this
      ensures gIdx == old(gIdx) + |Pieces(data)|
      ensures |frames| == |old(frames)| + |Pieces(data)| && frames[..|old(frames)|] == old(frames)
      ensures forall k :: 0 <= k < |Pieces(data)| ==>
                IsFrame(frames[|old(frames)| + k], testCase, Pieces(data)[k], old(gIdx) + k)
      ensures forall k :: |old(frames)| <= k < |frames| ==> StartsWith(frames[k], testCase + "record ")
      ensures out == old(out) + "data out start\n" + Flatten(frames[|old(frames)|..])
    {
      hide IsFrame, Flatten, Pieces, StartsWith;
      out := out + "data out start\n";
      ghost var n, start := |frames|, out;
      ghost var pieces := Pieces(data);
      ghost var sent := 0;
      var pcmLength := 0;
      FlattenNothing<char>();
      assert frames[n..] == [];
      while true
        invariant sent <= |pieces| && pcmLength == UART_OUT_SIZE * sent
        invariant |data| < UART_OUT_SIZE ==> sent == 0
        invariant gIdx == old(gIdx) + sent && |frames| == n + sent && frames[..n] == old(frames)
        invariant forall k :: 0 <= k < sent ==> IsFrame(frames[n + k], testCase, pieces[k], old(gIdx) + k)
        invariant out == start + Flatten(frames[n..])
        decreases |pieces| - sent
      {
        if |data| < UART_OUT_SIZE {
          Append(testCase, data, n);
          sent := sent + 1;
          break;
        }
        if pcmLength + UART_OUT_SIZE > |data| {
          break;
        }
        PieceAt(data, sent);
        Append(testCase, data[pcmLength..pcmLength + UART_OUT_SIZE], n);
        sent := sent + 1;
        pcmLength := pcmLength + UART_OUT_SIZE;
        if pcmLength >= |data| {
          break;
        }
      }
      forall k | n <= k < |frames|
        ensures StartsWith(frames[k], testCase + "record ")
      {
        assert frames[k] == frames[n + (k - n)];
        FrameStarts(frames[k], testCase, pieces[k - n], old(gIdx) + (k - n));
      }
    }

    /** `OutPrintData`, seen from the frames sent since number `n`. */
    method Append(testCase: string, data: string, ghost n: nat)
      requires n <= |frames|
      modifies this
      ensures gIdx == old(gIdx) + 1 && |frames| == |old(frames)| + 1 && frames[..|old(frames)|] == old(frames)
      ensures frames[..n] == old(frames[..n])
      ensures IsFrame(frames[|old(frames)|], testCase, data, old(gIdx))
      ensures out == old(out) + frames[|old(frames)|]
      ensures Flatten(frames[n..]) == old(Flatten(frames[n..])) + frames[|old(frames)|]
    {
      hide IsFrame;
      OutPrintData(testCase, data);
      FlattenOneMore(old(frames[n..]), frames[|old(frames)|]);
      assert frames[n..] == old(frames[n..]) + [frames[|old(frames)|]];
    }

    /** Ends an upload: the next frame is number 0 again. */
    method OutPrintDataCtl(testCase: string)
      modifies this
      ensures gIdx == 0 && frames == old(frames)
      ensures out == old(out) + "idx 0\n" + testCase + "record_end\n"
    {
      gIdx := 0;
      out := out + "idx " + Decimal(gIdx) + "\n" + testCase + "record_end\n";
    }
  }

  lemma {:induction false} PieceAt(data: string, k: nat)
    requires UART_OUT_SIZE <= |data| && UART_OUT_SIZE * k + UART_OUT_SIZE <= |data|
    ensures k < |Pieces(data)|
    ensures Pieces(data)[k] == data[512 * k..512 * k + 512]
  {
  }

  /** What the sent parts carry together. */
  lemma {:induction false} PiecesCarry(data: string)
    ensures Flatten(Pieces(data))
         == if |data| < 512 then data else data[..512 * (|data| / 512)]
  {
    if |data| < UART_OUT_SIZE {
      FlattenOneMore([], data);
      assert [] + [data] == [data];
    } else {
      PiecesCarryPrefix(data, |data| / UART_OUT_SIZE);
      assert Pieces(data)[..|data| / UART_OUT_SIZE] == Pieces(data);
    }
  }

  lemma {:induction false} PiecesCarryPrefix(data: string, k: nat)
    requires UART_OUT_SIZE <= |data| && k <= |data| / UART_OUT_SIZE
    ensures Flatten(Pieces(data)[..k]) == data[..UART_OUT_SIZE * k]
  {
    hide Pieces, Piece, Flatten;
    if k == 0 {
      FlattenNothing<char>();
      assert Pieces(data)[..0] == [] && data[..0] == "";
    } else {
      PiecesCarryPrefix(data, k - 1);
      var p, b := Pieces(data), UART_OUT_SIZE * (k - 1);
      PieceAt(data, k - 1);
      FlattenOneMore(p[..k - 1], p[k - 1]);
      assert p[..k] == p[..k - 1] + [p[k - 1]];
      assert data[..b + UART_OUT_SIZE] == data[..b] + data[b..b + UART_OUT_SIZE];
    }
  }

  /** An upload loses nothing exactly when the recording is short or a whole number of frames. */
  lemma {:induction false} LosslessIff(data: string)
    ensures Flatten(Pieces(data)) == data <==> |data| < 512 || |data| % 512 == 0
  {
    PiecesCarry(data);
  }

  /** The host's view of a frame: its number and its payload, and the stream behind it. */
  datatype Received = Received(idx: nat, payload: string, rest: string)

  function DigitCount(s: string): (k: nat)
    ensures k <= |s| && (forall i :: 0 <= i < k ==> IsDigit(s[i])) && (k < |s| ==> !IsDigit(s[k]))
  {
    if s != "" && IsDigit(s[0]) then 1 + DigitCount(s[1..]) else 0
  }

  function DecimalValue(s: string): nat
    requires forall i :: 0 <= i < |s| ==> IsDigit(s[i])
  {
    if s == "" then 0 else
      assert IsDigit(s[|s| - 1]);
      DecimalValue(s[..|s| - 1]) * 10 + (s[|s| - 1] as int - '0' as int)
  }

  /** Reads a decimal number and the blank behind it; the result is the number and where it ended. */
  function ReadNumber(s: string): Option<(nat, nat)> {
    var k := DigitCount(s);
    if 0 < k < |s| && s[k] == ' ' then Some((DecimalValue(s[..k]), k + 1)) else None
  }

  /** Reads one frame off a byte stream, by its header alone. */
  function Receive(testCase: string, stream: string): Option<Received> {
    var lead := testCase + "record ";
    if |stream| < RECORDER_HEAD || !(lead <= stream[..RECORDER_HEAD]) then None else
      var h := stream[|lead|..RECORDER_HEAD];
      match ReadNumber(h)
      case None => None
      case Some((length, k)) =>
        match ReadNumber(h[k..])
        case None => None
        case Some((idx, _)) =>
          if RECORDER_HEAD + length < |stream| && stream[RECORDER_HEAD + length] == '\n'
          then Some(Received(idx, stream[RECORDER_HEAD..RECORDER_HEAD + length], stream[RECORDER_HEAD + length + 1..]))
          else None
  }

  lemma {:induction false} DigitRun(digits: string, s: string)
    requires (forall i :: 0 <= i < |digits| ==> IsDigit(digits[i])) && s != "" && !IsDigit(s[0])
    ensures DigitCount(digits + s) == |digits|
    decreases |digits|
  {
    if digits == "" {
      assert digits + s == s;
    } else {
      assert (digits + s)[1..] == digits[1..] + s;
      DigitRun(digits[1..], s);
    }
  }

  lemma {:induction false} DecimalInverse(n: nat)
    ensures DecimalValue(Decimal(n)) == n
  {
    var d := Decimal(n);
    if n >= 10 {
      DecimalInverse(n / 10);
      assert d[..|d| - 1] == Decimal(n / 10);
    } else {
      assert d[..0] == "";
    }
  }

  lemma {:induction false} NumberRoundTrip(n: nat, s: string)
    ensures ReadNumber(Decimal(n) + " " + s) == Some((n, |Decimal(n)| + 1))
  {
    var d := Decimal(n);
    assert d + " " + s == d + (" " + s);
    DigitRun(d, " " + s);
    assert (d + " " + s)[..|d|] == d;
    DecimalInverse(n);
  }

  /** A frame whose header is not cut reads back, whatever its payload and whatever follows it. */
  lemma {:induction false} FrameRoundTrip(frame: string, testCase: string, data: string, idx: nat, rest: string)
    requires IsFrame(frame, testCase, data, idx) && |HeaderText(testCase, |data|, idx)| < RECORDER_HEAD
    ensures Receive(testCase, frame + rest) == Some(Received(idx, data, rest))
  {
    hide HoldsText, HeaderText, ReadNumber, Decimal;
    var stream, lead := frame + rest, Lead(testCase);
    var head := frame[..RECORDER_HEAD];
    assert stream[..RECORDER_HEAD] == head;
    HeaderRoundTrip(head, testCase, |data|, idx);
    assert stream[|lead|..RECORDER_HEAD] == head[|lead|..];
    assert stream[RECORDER_HEAD..RECORDER_HEAD + |data|] == data;
    assert stream[RECORDER_HEAD + |data| + 1..] == rest;
  }

  /** A header that is not cut tells the length and the number. */
  lemma {:induction false} HeaderRoundTrip(head: string, testCase: string, length: nat, idx: nat)
    requires HoldsText(head, HeaderText(testCase, length, idx)) && |HeaderText(testCase, length, idx)| < RECORDER_HEAD
    ensures var lead := Lead(testCase);
            && |head| == RECORDER_HEAD && lead <= head
            && var h := head[|lead|..];
               var k := |Decimal(length)| + 1;
               && ReadNumber(h) == Some((length, k)) && k <= |h|
               && ReadNumber(h[k..]) == Some((idx, |Decimal(idx)| + 1))
  {
    hide ReadNumber, Decimal, Lead;
    var lead, numbers := Lead(testCase), Numbers(length, idx);
    var a, b, tail := Decimal(length), Decimal(idx), head[|lead + numbers|..];
    assert head == lead + numbers + tail by {
      assert (lead + numbers)[..|lead + numbers|] == lead + numbers;
    }
    Associate(lead, numbers, tail);
    var h := head[|lead|..];
    assert h == numbers + tail;
    Associate(a + " ", b + " ", tail);
    NumberRoundTrip(length, b + " " + tail);
    assert (a + " ")[..] == a + " ";
    assert h[|a| + 1..] == b + " " + tail;
    NumberRoundTrip(idx, tail);
  }

  lemma {:induction false} CutNumber(digits: string)
    requires forall i :: 0 <= i < |digits| ==> IsDigit(digits[i])
    ensures ReadNumber(digits + "\0") == None
  {
    DigitRun(digits, "\0");
  }

  /** A header that is cut, if only by its last blank, tells nothing. */
  lemma {:induction false} CutHeaderUnreadable(head: string, testCase: string, length: nat, idx: nat)
    requires HoldsText(head, HeaderText(testCase, length, idx)) && '\0' !in testCase
    requires RECORDER_HEAD <= |HeaderText(testCase, length, idx)|
    requires var lead := Lead(testCase); lead <= head
    ensures var lead := Lead(testCase);
            var h := head[|lead|..];
            match ReadNumber(h)
            case None => true
            case Some((_, k)) => k <= |h| && ReadNumber(h[k..]) == None
  {
    hide ReadNumber, Decimal;
    var text, lead := HeaderText(testCase, length, idx), Lead(testCase);
    var a, b, h := Decimal(length), Decimal(idx), head[|lead|..];
    assert head[RECORDER_HEAD - 1] !in lead;
    assert |lead| < RECORDER_HEAD;
    var m := RECORDER_HEAD - 1 - |lead|;
    var numbers := Numbers(length, idx);
    assert h == numbers[..m] + "\0" by {
      assert head == text[..RECORDER_HEAD - 1] + "\0";
    }
    if m <= |a| {
      assert numbers[..m] == a[..m];
      CutNumber(a[..m]);
    } else {
      var l := m - |a| - 1;
      assert numbers[..m] == a + " " + b[..l];
      assert h == a + " " + (b[..l] + "\0");
      NumberRoundTrip(length, b[..l] + "\0");
      assert h[|a| + 1..] == b[..l] + "\0";
      CutNumber(b[..l]);
    }
  }

  /** A frame reads back exactly when its header text fits the 39 characters the buffer has for it. */
  lemma {:induction false} FrameReadsBackIff(frame: string, testCase: string, data: string, idx: nat, rest: string)
    requires IsFrame(frame, testCase, data, idx) && '\0' !in testCase
    ensures Receive(testCase, frame + rest) == Some(Received(idx, data, rest))
            <==> |HeaderText(testCase, |data|, idx)| < 40
  {
    hide HoldsText, HeaderText, ReadNumber, Decimal;
    if |HeaderText(testCase, |data|, idx)| < RECORDER_HEAD {
      FrameRoundTrip(frame, testCase, data, idx, rest);
    } else {
      var stream, lead, head := frame + rest, Lead(testCase), frame[..RECORDER_HEAD];
      assert stream[..RECORDER_HEAD] == head;
      if lead <= head {
        CutHeaderUnreadable(head, testCase, |data|, idx);
        assert stream[|lead|..RECORDER_HEAD] == head[|lead|..];
      }
    }
  }

  /** Some header buffer may stand for number `idx` as well as for `idx'`. */
  ghost predicate SharedHeader(testCase: string, length: nat, idx: nat, idx': nat) {
    exists head :: HoldsText(head, HeaderText(testCase, length, idx))
                   && HoldsText(head, HeaderText(testCase, length, idx'))
  }

  /** Two texts fit one buffer only if they are the same as far as it goes. */
  lemma {:induction false} SharedHeaderIff(testCase: string, length: nat, idx: nat, idx': nat)
    ensures var t, t' := HeaderText(testCase, length, idx), HeaderText(testCase, length, idx');
            SharedHeader(testCase, length, idx, idx')
            <==> Min(RECORDER_HEAD - 1, |t|) == Min(RECORDER_HEAD - 1, |t'|)
                 && t[..Min(RECORDER_HEAD - 1, |t|)] == t'[..Min(RECORDER_HEAD - 1, |t'|)]
  {
    hide Decimal;
    var t, t' := HeaderText(testCase, length, idx), HeaderText(testCase, length, idx');
    var k, k' := Min(RECORDER_HEAD - 1, |t|), Min(RECORDER_HEAD - 1, |t'|);
    NumberPrinted(testCase, length, idx);
    NumberPrinted(testCase, length, idx');
    if SharedHeader(testCase, length, idx, idx') {
      var head :| HoldsText(head, t) && HoldsText(head, t');
      assert forall i :: 0 <= i < k ==> head[..k][i] == t[..k][i];
      assert forall i :: 0 <= i < k' ==> head[..k'][i] == t'[..k'][i];
    }
    if k == k' && t[..k] == t'[..k] {
      var head := t[..k] + seq(RECORDER_HEAD - k, i => '\0');
      assert HoldsText(head, t) && HoldsText(head, t');
    }
  }

  /** Behind the lead and the length, a header text holds digits and blanks only. */
  lemma {:induction false} NumberPrinted(testCase: string, length: nat, idx: nat)
    ensures var t, base := HeaderText(testCase, length, idx), Lead(testCase) + Decimal(length) + " ";
            && t == base + Decimal(idx) + " "
            && forall i :: |base| <= i < |t| ==> t[i] != '\0' && (IsDigit(t[i]) <==> i + 1 < |t|)
  {
    hide Decimal;
    var base := Lead(testCase) + Decimal(length) + " ";
    assert HeaderText(testCase, length, idx) == base + Decimal(idx) + " ";
  }

  /** Ten times a number shares a header that has room for its last digit at most. */
  lemma {:induction false} SharesWithTenfold(testCase: string, length: nat, idx: nat)
    requires var n := |HeaderText(testCase, length, idx)|; RECORDER_HEAD <= n && !(n == RECORDER_HEAD && idx == 0)
    ensures exists idx' :: idx' != idx && SharedHeader(testCase, length, idx, idx')
  {
    hide HoldsText, HeaderText;
    var base, idx' := Lead(testCase) + Decimal(length) + " ", if idx == 0 then 1 else idx * 10;
    NumberPrinted(testCase, length, idx);
    NumberPrinted(testCase, length, idx');
    SharedHeaderIff(testCase, length, idx, idx');
    var t, t' := HeaderText(testCase, length, idx), HeaderText(testCase, length, idx');
    if idx == 0 {
      assert t[..RECORDER_HEAD - 1] == base[..RECORDER_HEAD - 1] == t'[..RECORDER_HEAD - 1];
    } else {
      assert Decimal(idx') == Decimal(idx) + "0";
      assert t[..RECORDER_HEAD - 1] == (base + Decimal(idx))[..RECORDER_HEAD - 1] == t'[..RECORDER_HEAD - 1];
    }
    assert SharedHeader(testCase, length, idx, idx');
  }

  lemma {:induction false} SharesWithNone(testCase: string, length: nat, idx: nat, idx': nat)
    requires var n := |HeaderText(testCase, length, idx)|; n < RECORDER_HEAD || (n == RECORDER_HEAD && idx == 0)
    requires SharedHeader(testCase, length, idx, idx')
    ensures idx' == idx
  {
    hide HoldsText, HeaderText, Decimal;
    var base, t, t' := Lead(testCase) + Decimal(length) + " ", HeaderText(testCase, length, idx),
                       HeaderText(testCase, length, idx');
    NumberPrinted(testCase, length, idx);
    NumberPrinted(testCase, length, idx');
    SharedHeaderIff(testCase, length, idx, idx');
    var d, d', k := Decimal(idx), Decimal(idx'), Min(RECORDER_HEAD - 1, |t|);
    if |t| == RECORDER_HEAD {
      NoLeadingZero(idx);
      NoLeadingZero(idx');
      assert t[..k][|base|] == d[0] && t'[..k][|base|] == d'[0];
    } else {
      assert t[..k][k - 1] == t'[..k][k - 1];
      assert t == t';
      assert d == t[|base|..|t| - 1] && d' == t'[|base|..|t'| - 1];
      DecimalInverse(idx);
      DecimalInverse(idx');
    }
  }

  lemma {:induction false} NoLeadingZero(n: nat)
    ensures Decimal(n)[0] == '0' <==> n == 0
    ensures n == 0 ==> Decimal(n) == "0"
  {
    if 10 <= n {
      NoLeadingZero(n / 10);
    }
  }

  /** A frame's number can be told from its header, however cleverly the host reads, exactly when the text
      is not cut, or loses no more than the blank behind a zero. */
  lemma {:induction false} NumberIsAmbiguousIff(testCase: string, length: nat, idx: nat)
    ensures (exists idx' :: idx' != idx && SharedHeader(testCase, length, idx, idx'))
            <==> var n := |HeaderText(testCase, length, idx)|;
                 40 <= n && !(n == 40 && idx == 0)
  {
    hide Decimal;
    var t := HeaderText(testCase, length, idx);
    if RECORDER_HEAD <= |t| && !(|t| == RECORDER_HEAD && idx == 0) {
      SharesWithTenfold(testCase, length, idx);
    } else {
      forall idx' | SharedHeader(testCase, length, idx, idx')
        ensures idx' == idx
      {
        SharesWithNone(testCase, length, idx, idx');
      }
    }
  }

  /** Once the number's first digit no longer fits, frames of every number have the same headers. */
  lemma {:induction false} CutHeaderLosesNumber(head: string, testCase: string, length: nat, idx: nat, idx': nat)
    requires RECORDER_HEAD - 1 <= |Lead(testCase) + Decimal(length) + " "|
    ensures HoldsText(head, HeaderText(testCase, length, idx)) <==> HoldsText(head, HeaderText(testCase, length, idx'))
  {
    hide Decimal, HeaderText;
    NumberPrinted(testCase, length, idx);
    NumberPrinted(testCase, length, idx');
    var base := Lead(testCase) + Decimal(length) + " ";
    var t, t' := HeaderText(testCase, length, idx), HeaderText(testCase, length, idx');
    assert t[..RECORDER_HEAD - 1] == base[..RECORDER_HEAD - 1] == t'[..RECORDER_HEAD - 1];
  }

  /** The host's reading of a whole stream of frames. */
  ghost predicate Reads(testCase: string, stream: string, payloads: seq<string>, idx: nat)
    decreases |payloads|
  {
    if payloads == [] then stream == "" else
      var r := Receive(testCase, stream);
      r.Some? && r.value.idx == idx && r.value.payload == payloads[0]
      && Reads(testCase, r.value.rest, payloads[1..], idx + 1)
  }

  /** Frames delimit themselves: their concatenation reads back as the payloads, numbered without a gap. */
  lemma {:induction false} StreamRoundTrip(testCase: string, frames: seq<string>, payloads: seq<string>, idx: nat)
    requires |frames| == |payloads|
    requires forall k :: 0 <= k < |frames| ==> IsFrame(frames[k], testCase, payloads[k], idx + k)
    requires forall k :: 0 <= k < |frames| ==> |HeaderText(testCase, |payloads[k]|, idx + k)| < RECORDER_HEAD
    ensures Reads(testCase, Flatten(frames), payloads, idx)
    decreases |frames|
  {
    hide IsFrame, HeaderText, Receive, Flatten;
    if frames == [] {
      FlattenNothing<char>();
    } else {
      FlattenFirst(frames);
      FrameRoundTrip(frames[0], testCase, payloads[0], idx, Flatten(frames[1..]));
      forall k | 0 <= k < |frames| - 1
        ensures IsFrame(frames[1..][k], testCase, payloads[1..][k], idx + 1 + k)
        ensures |HeaderText(testCase, |payloads[1..][k]|, idx + 1 + k)| < RECORDER_HEAD
      {
        assert frames[1..][k] == frames[k + 1] && payloads[1..][k] == payloads[k + 1];
        assert idx + 1 + k == idx + (k + 1);
      }
      StreamRoundTrip(testCase, frames[1..], payloads[1..], idx + 1);
    }
  }

}

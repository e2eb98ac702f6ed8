/** The hand-written tokenizer of amplifier scripts, and the printer it inverts. */
module HexTokens {
  import opened Basics

  predicate IsHex(c: char) {
    'a' <= c <= 'f' || '0' <= c <= '9'
  }

  function Digit(c: char): (d: nat)
    requires IsHex(c)
    ensures d < 16
  {
    if 'a' <= c <= 'f' then c as int - 'a' as int + 10 else c as int - '0' as int
  }

  /** Where the maximal run of lower-case hexadecimal digits from `i` on ends. */
  function RunEnd(s: string, i: nat): (e: nat)
    requires i <= |s|
    ensures i <= e <= |s|
    ensures forall j :: i <= j < e ==> IsHex(s[j])
    ensures e < |s| ==> !IsHex(s[e])
    decreases |s| - i
  {
    if i < |s| && IsHex(s[i]) then RunEnd(s, i + 1) else i
  }

  function HexValue(digits: string): nat
    requires forall j :: 0 <= j < |digits| ==> IsHex(digits[j])
  {
    if digits == "" then 0 else
      var last := |digits| - 1;
      HexValue(digits[..last]) * 16 + Digit(digits[last])
  }

  /** The value of the run at `i`, cut to a byte; an empty run is zero. */
  function TokenAt(s: string, i: nat): Byte
    requires i <= |s|
  {
    HexValue(s[i..RunEnd(s, i)]) % 256
  }

  /** The positions, from `i` on, of the spaces that start a token: all but one in last position. */
  function Spaces(s: string, i: nat): (ps: seq<nat>)
    ensures forall k :: 0 <= k < |ps| ==> i <= ps[k] && ps[k] + 1 < |s| && s[ps[k]] == ' '
    decreases |s| - i
  {
    if |s| <= i + 1 then [] else if s[i] == ' ' then [i] + Spaces(s, i + 1) else Spaces(s, i + 1)
  }

  /** The tokens of `s` from position `i` on. */
  function Tokens(s: string, i: nat): seq<Byte> {
    var ps := Spaces(s, i);
    seq<Byte>(|ps|, k requires 0 <= k < |ps| => TokenAt(s, ps[k] + 1))
  }

  /** `Spaces` misses none, and lists them in order. */
  lemma {:induction false} SpacesComplete(s: string, i: nat, p: nat)
    requires i <= p && p + 1 < |s| && s[p] == ' '
    ensures p in Spaces(s, i)
    ensures forall k, l :: 0 <= k < l < |Spaces(s, i)| ==> Spaces(s, i)[k] < Spaces(s, i)[l]
    decreases |s| - i
  {
    SpacesIncrease(s, i);
    if i < p {
      SpacesComplete(s, i + 1, p);
    }
  }

  lemma {:induction false} SpacesIncrease(s: string, i: nat)
    ensures forall k, l :: 0 <= k < l < |Spaces(s, i)| ==> Spaces(s, i)[k] < Spaces(s, i)[l]
    decreases |s| - i
  {
    if i + 1 < |s| {
      SpacesIncrease(s, i + 1);
    }
  }

  lemma {:induction false} SpacesSkip(s: string, i: nat, j: nat)
    requires i <= j <= |s| && forall p :: i <= p < j ==> s[p] != ' '
    ensures Spaces(s, i) == Spaces(s, j) && Tokens(s, i) == Tokens(s, j)
    decreases j - i
  {
    if i < j {
      SpacesSkip(s, i + 1, j);
    }
  }

  lemma {:induction false} TokensAtSpace(s: string, i: nat)
    requires i + 1 < |s| && s[i] == ' '
    ensures Tokens(s, i) == [TokenAt(s, i + 1)] + Tokens(s, i + 1)
  {
  }

  lemma {:induction false} TokensAtEnd(s: string, i: nat)
    requires |s| <= i + 1
    ensures Tokens(s, i) == []
  {
  }

  /** Moves past the next space; `Tokens` from there on starts with the token just reached. */
  method SkipSpace(str: string, start: nat) returns (i: nat)
    requires start <= |str|
    ensures start <= i <= |str|
    ensures i == |str| ==> Tokens(str, start) == []
    ensures i < |str| ==> Tokens(str, start) == [TokenAt(str, i)] + Tokens(str, i)
  {
    hide Tokens, Spaces, TokenAt;
    i := start;
    while i < |str|
      invariant start <= i <= |str|
      invariant forall p :: start <= p < i ==> str[p] != ' '
    {
      if str[i] == ' ' {
        i := i + 1;
        break;
      }
      i := i + 1;
    }
    if start < i && str[i - 1] == ' ' {
      SpacesSkip(str, start, i - 1);
      if i < |str| {
        TokensAtSpace(str, i - 1);
      } else {
        TokensAtEnd(str, i - 1);
      }
    } else {
      SpacesSkip(str, start, i);
      TokensAtEnd(str, i);
    }
  }

  /** Reads the hexadecimal run at `start`. */
  method ReadRun(str: string, start: nat) returns (curVal: nat, i: nat)
    requires start <= |str|
    ensures start <= i <= |str|
    ensures curVal % 256 == TokenAt(str, start) && Tokens(str, start) == Tokens(str, i)
  {
    i := start;
    curVal := 0;
    while i < |str|
      invariant start <= i <= |str|
      invariant forall j :: start <= j < i ==> IsHex(str[j])
      invariant curVal == HexValue(str[start..i])
    {
      var ch := str[i];
      if 'a' <= ch <= 'f' {
        curVal := curVal * 16;
        curVal := curVal + (ch as int - 'a' as int + 10);
      } else if '0' <= ch <= '9' {
        curVal := curVal * 16;
        curVal := curVal + (ch as int - '0' as int);
      } else {
        break;
      }
      assert str[start..i + 1][..i - start] == str[start..i];
      i := i + 1;
    }
    RunIsMaximal(str, start, i);
    SpacesSkip(str, start, i);
  }

  /** Reads at most `valLen` tokens of `str` into `vals[off..]` and returns how many. */
  method GetValFromString(str: string, vals: array<Byte>, off: nat, valLen: nat) returns (got: nat)
    requires var n := Min(valLen, |Tokens(str, 0)|); n == 0 || off + n <= vals.Length
    modifies vals
    ensures got == Min(valLen, |Tokens(str, 0)|)
    ensures vals[..] == if got == 0 then old(vals[..])
                        else old(vals[..off]) + Tokens(str, 0)[..got] + old(vals[off + got..])
  {
    hide Tokens, Spaces, TokenAt;
    ghost var all := Tokens(str, 0);
    var i := 0;
    got := 0;
    while true
      invariant 0 <= i <= |str| && got <= valLen && (got == 0 || off + got <= vals.Length)
      invariant got <= |all| && Tokens(str, i) == all[got..]
      invariant got == 0 || got < valLen
      invariant forall j :: 0 <= j < vals.Length && !(off <= j < off + got) ==> vals[j] == old(vals[j])
      invariant forall j :: 0 <= j < got ==> vals[off + j] == all[j]
      decreases |all| - got
    {
      i := SkipSpace(str, i);
      if i >= |str| {
        break;
      }
      var curVal;
      curVal, i := ReadRun(str, i);
      assert all[got] == curVal % 256;
      if got < valLen {
        vals[off + got] := curVal % 256;
        got := got + 1;
        if got == valLen {
          break;
        }
      } else {
        break;
      }
    }
    assert got > 0 ==> vals[..] == old(vals[..off]) + all[..got] + old(vals[off + got..]);
  }

  lemma {:induction false} RunIsMaximal(s: string, i: nat, e: nat)
    requires i <= e <= |s| && (forall j :: i <= j < e ==> IsHex(s[j])) && (e < |s| ==> !IsHex(s[e]))
    ensures RunEnd(s, i) == e
    decreases e - i
  {
    if i < e {
      RunIsMaximal(s, i + 1, e);
    }
  }

  lemma {:induction false} DigitIff(c: char)
    ensures IsHex(c) <==> c in "0123456789abcdef"
    ensures IsHex(c) ==> "0123456789abcdef"[Digit(c)] == c
  {
    if IsHex(c) {
      assert "0123456789abcdef"[Digit(c)] == c;
    }
  }

  function Power(n: nat): nat {
    if n == 0 then 1 else 16 * Power(n - 1)
  }

  /** The digits' values, each times its power of sixteen. */
  function PositionalSum(digits: string): nat
    requires forall j :: 0 <= j < |digits| ==> IsHex(digits[j])
  {
    if digits == "" then 0 else Digit(digits[0]) * Power(|digits| - 1) + PositionalSum(digits[1..])
  }

  lemma {:induction false} ValueIsSum(digits: string)
    requires forall j :: 0 <= j < |digits| ==> IsHex(digits[j])
    ensures HexValue(digits) == PositionalSum(digits)
  {
    if digits != "" {
      var last := |digits| - 1;
      ValueIsSum(digits[..last]);
      SumAppend(digits[..last], digits[last]);
      assert digits == digits[..last] + [digits[last]];
    }
  }

  lemma {:induction false} SumAppend(digits: string, c: char)
    requires IsHex(c) && forall j :: 0 <= j < |digits| ==> IsHex(digits[j])
    ensures PositionalSum(digits + [c]) == 16 * PositionalSum(digits) + Digit(c)
  {
    hide IsHex, Digit;
    var all := digits + [c];
    if digits == "" {
      assert all[1..] == "" && Power(0) == 1;
    } else {
      SumAppend(digits[1..], c);
      assert all[1..] == digits[1..] + [c];
      var n := |digits| - 1;
      assert Power(n + 1) == 16 * Power(n);
      PowerStep(Digit(digits[0]), Power(n), PositionalSum(digits[1..]));
    }
  }

  lemma {:induction false} PowerStep(d: nat, p: nat, rest: nat)
    ensures d * (16 * p) + 16 * rest == 16 * (d * p + rest)
  {
  }

  /** A token's value, by its characters: the positional sum of the longest run of the sixteen digits
      behind the space, mod 256. */
  lemma {:induction false} TokenIs(s: string, i: nat, e: nat)
    requires i <= e <= |s| && (forall j :: i <= j < e ==> s[j] in "0123456789abcdef")
    requires e < |s| ==> s[e] !in "0123456789abcdef"
    ensures forall j :: i <= j < e ==> IsHex(s[j])
    ensures TokenAt(s, i) == PositionalSum(s[i..e]) % 256
  {
    hide IsHex, Digit, HexValue, PositionalSum, RunEnd;
    forall j | i <= j < |s|
      ensures IsHex(s[j]) <==> s[j] in "0123456789abcdef"
    {
      DigitIff(s[j]);
    }
    RunIsMaximal(s, i, e);
    ValueIsSum(s[i..e]);
  }

  /** An empty run is zero, one digit its value, and of a longer run only the last two digits count. */
  lemma {:induction false} SumOfLast(digits: string)
    requires forall j :: 0 <= j < |digits| ==> IsHex(digits[j])
    ensures PositionalSum(digits) % 256
         == if digits == "" then 0 else if |digits| == 1 then Digit(digits[0])
            else 16 * Digit(digits[|digits| - 2]) + Digit(digits[|digits| - 1])
  {
    hide IsHex, Digit;
    ValueIsSum(digits);
    LastDigits(digits);
  }

  /** One token behind each such space, in order. */
  lemma {:induction false} TokenBehindSpace(s: string, k: nat, e: nat)
    requires k < |Spaces(s, 0)|
    requires var i := Spaces(s, 0)[k] + 1; i <= e <= |s| && forall j :: i <= j < e ==> s[j] in "0123456789abcdef"
    requires e < |s| ==> s[e] !in "0123456789abcdef"
    ensures |Tokens(s, 0)| == |Spaces(s, 0)|
    ensures forall j :: Spaces(s, 0)[k] < j < e ==> IsHex(s[j])
    ensures Tokens(s, 0)[k] == PositionalSum(s[Spaces(s, 0)[k] + 1..e]) % 256
  {
    hide IsHex, TokenAt, PositionalSum;
    TokenIs(s, Spaces(s, 0)[k] + 1, e);
  }

  lemma {:induction false} LastDigits(digits: string)
    requires forall j :: 0 <= j < |digits| ==> IsHex(digits[j])
    ensures digits == "" ==> HexValue(digits) == 0
    ensures |digits| == 1 ==> HexValue(digits) == Digit(digits[0])
    ensures 2 <= |digits| ==>
              HexValue(digits) % 256 == 16 * Digit(digits[|digits| - 2]) + Digit(digits[|digits| - 1])
  {
    if 2 <= |digits| {
      var n := |digits|;
      var front := digits[..n - 1];
      assert front[..n - 2] == digits[..n - 2];
      var v := HexValue(digits[..n - 2]);
      assert HexValue(digits) == v * 256 + (16 * Digit(digits[n - 2]) + Digit(digits[n - 1]));
    } else if |digits| == 1 {
      assert digits[..0] == "";
    }
  }

  function HexDigit(d: nat): (c: char)
    requires d < 16
    ensures IsHex(c) && Digit(c) == d
  {
    if d < 10 then '0' + d as char else 'a' + (d - 10) as char
  }

  /** Each byte as a space and two lower-case digits. */
  function Printed(bytes: seq<Byte>): string {
    if bytes == [] then "" else [' ', HexDigit(bytes[0] / 16), HexDigit(bytes[0] % 16)] + Printed(bytes[1..])
  }

  /** Reading a printed line gives the bytes back, whatever stands before the first space. */
  lemma {:induction false} TokensOfPrinted(s: string, i: nat, bytes: seq<Byte>)
    requires i <= |s| && s[i..] == Printed(bytes)
    ensures Tokens(s, i) == bytes
    decreases |bytes|
  {
    hide *;
    if bytes == [] {
      PrintedNothing(s, i);
    } else {
      PrintedHead(s, i, bytes);
      TokensOfPrinted(s, i + 3, bytes[1..]);
      assert [bytes[0]] + bytes[1..] == bytes;
    }
  }

  lemma {:induction false} PrintedNothing(s: string, i: nat)
    requires i <= |s| && s[i..] == Printed([])
    ensures Tokens(s, i) == []
  {
  }

  lemma {:induction false} PrintedHead(s: string, i: nat, bytes: seq<Byte>)
    requires i <= |s| && bytes != [] && s[i..] == Printed(bytes)
    ensures i + 3 <= |s| && s[i + 3..] == Printed(bytes[1..])
    ensures Tokens(s, i) == [bytes[0]] + Tokens(s, i + 3)
  {
    hide Tokens, Spaces, TokenAt, HexValue, RunEnd, HexDigit;
    var b := bytes[0];
    PrintedUnfolds(bytes);
    var p := Printed(bytes);
    assert s[i] == p[0] && s[i + 1] == p[1] && s[i + 2] == p[2];
    assert s[i + 3..] == p[3..];
    if i + 3 < |s| {
      assert s[i + 3] == p[3..][0];
    }
    DigitsToken(s, i + 1, b);
    TokensAtSpace(s, i);
    SpacesSkip(s, i + 1, i + 3);
  }

  lemma {:induction false} PrintedUnfolds(bytes: seq<Byte>)
    requires bytes != []
    ensures var p := Printed(bytes);
            && |p| >= 3 && p[0] == ' ' && p[1] == HexDigit(bytes[0] / 16) && p[2] == HexDigit(bytes[0] % 16)
            && p[3..] == Printed(bytes[1..])
            && (|p| > 3 ==> p[3..][0] == ' ')
  {
  }

  lemma {:induction false} DigitsToken(s: string, i: nat, b: Byte)
    requires i + 2 <= |s| && s[i] == HexDigit(b / 16) && s[i + 1] == HexDigit(b % 16)
    requires i + 2 < |s| ==> s[i + 2] == ' '
    ensures TokenAt(s, i) == b && s[i] != ' ' && s[i + 1] != ' '
  {
    RunIsMaximal(s, i, i + 2);
    TwoDigits(s[i..i + 2], b);
  }

  lemma {:induction false} TwoDigits(digits: string, b: Byte)
    requires digits == [HexDigit(b / 16), HexDigit(b % 16)]
    ensures HexValue(digits) == b
  {
    assert digits[..1] == [HexDigit(b / 16)] && digits[..1][..0] == "";
    assert HexValue(digits[..1]) == b / 16;
  }
}

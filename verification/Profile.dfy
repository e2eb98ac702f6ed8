/** The profile command: four quoted parameters in, one JSON line out. */
module Profile {
  import opened Basics

  /** Where `strchr` finds the first quote, or the end. */
  function Find(s: string): (p: nat)
    ensures p <= |s| && '"' !in s[..p] && (p < |s| ==> s[p] == '"')
  {
    if s == "" || s[0] == '"' then 0 else
      var p := 1 + Find(s[1..]);
      assert s[..p] == [s[0]] + s[1..][..p - 1];
      p
  }

  /** All quoted substrings, in order: quotes open and close alternately. */
  function Quoted(s: string): seq<string> {
    var p := Find(s);
    if p == |s| then [] else
      var t := s[p + 1..];
      var r := Find(t);
      if r == |t| then [] else [t[..r]] + Quoted(t[r + 1..])
  }

  function QuoteCount(s: string): nat {
    if s == "" then 0 else (if s[0] == '"' then 1 else 0) + QuoteCount(s[1..])
  }

  lemma {:induction false} CountToQuote(s: string)
    ensures QuoteCount(s) == if Find(s) < |s| then 1 + QuoteCount(s[Find(s) + 1..]) else 0
  {
    if s != "" && s[0] != '"' {
      CountToQuote(s[1..]);
      var p := Find(s);
      if p < |s| {
        assert s[1..][p - 1 + 1..] == s[p + 1..];
      }
    }
  }

  lemma {:induction false} QuotedUnfolds(s: string)
    ensures var p := Find(s);
            && (p == |s| ==> Quoted(s) == [])
            && (p < |s| ==>
                  var t := s[p + 1..];
                  Quoted(s) == if Find(t) == |t| then [] else [t[..Find(t)]] + Quoted(t[Find(t) + 1..]))
  {
    hide Find;
  }

  /** Two quotes make one quoted substring. */
  lemma {:induction false} QuotedCount(s: string)
    ensures |Quoted(s)| == QuoteCount(s) / 2
  {
    hide *;
    QuotedUnfolds(s);
    CountToQuote(s);
    var p := Find(s);
    if p < |s| {
      var t := s[p + 1..];
      CountToQuote(t);
      if Find(t) < |t| {
        QuotedCount(t[Find(t) + 1..]);
      }
    }
  }

  /** The first quoted substring, copied out. */
  method GetParam(src: string) returns (dst: Option<string>)
    ensures dst == if Quoted(src) == [] then None else Some(Quoted(src)[0])
    ensures dst.Some? ==> '"' !in dst.value
  {
    hide Quoted, Find;
    QuotedUnfolds(src);
    var temp1 := Find(src);
    if temp1 == |src| {
      return None;
    }
    var temp2 := temp1 + 1 + Find(src[temp1 + 1..]);
    if temp2 == |src| {
      return None;
    }
    var len := temp2 - temp1;
    var t := src[temp1 + 1..];
    dst := Some(src[temp1 + 1..temp1 + 1 + (len - 1)]);
    assert dst.value == t[..Find(t)];
  }

  /** Moves behind the first quoted substring. */
  method Advance(src: string) returns (rest: string)
    requires Quoted(src) != []
    ensures Quoted(rest) == Quoted(src)[1..]
  {
    hide Quoted, Find;
    QuotedUnfolds(src);
    var temp1 := Find(src);
    ghost var t := src[temp1 + 1..];
    temp1 := temp1 + 1 + Find(src[temp1 + 1..]);
    rest := src[temp1 + 1..];
    assert rest == t[Find(t) + 1..];
  }

  /** A character buffer that holds the C string `text`. */
  predicate Holds(b: seq<char>, text: string) {
    '\0' !in text && |text| < |b| && b[..|text|] == text && b[|text|] == '\0'
  }

  lemma {:induction false} HoldsExactly(b: seq<char>, text: string)
    requires Holds(b, text) && |b| == |text| + 1
    ensures b == text + "\0"
  {
    assert b == b[..|text|] + [b[|text|]];
  }

  method StrCpy(buf: array<char>, src: string)
    requires '\0' !in src && |src| < buf.Length
    modifies buf
    ensures Holds(buf[..], src)
  {
    forall i | 0 <= i < |src| {
      buf[i] := src[i];
    }
    buf[|src|] := '\0';
    assert buf[..][..|src|] == src;
  }

  method StrCat(buf: array<char>, src: string, ghost text: string)
    requires Holds(buf[..], text) && '\0' !in src && |text| + |src| < buf.Length
    modifies buf
    ensures Holds(buf[..], text + src)
  {
    assert forall j :: 0 <= j < |text| ==> buf[j] == buf[..][..|text|][j] == text[j];
    var end := 0;
    while buf[end] != '\0'
      invariant end <= |text|
      decreases |text| - end
    {
      end := end + 1;
    }
    forall i | 0 <= i < |src| {
      buf[end + i] := src[i];
    }
    buf[end + |src|] := '\0';
    assert buf[..][..|text + src|] == text + src;
  }

  function Json(fc: string, pk: string, ak: string, sk: string): string {
    "{\"fc\":\"" + fc + "\",\"pk\":\"" + pk + "\",\"ak\":\"" + ak + "\",\"sk\":\"" + sk + "\"}"
  }

  /** Parses the command and builds the profile text; null when a parameter is missing. */
  method StartProfileCase(params: string) returns (profile: array?<char>)
    requires '\0' !in params
    ensures profile != null <==> 8 <= QuoteCount(params)
    ensures profile != null ==>
              && fresh(profile) && |Quoted(params)| >= 4
              && var q := Quoted(params);
                 var text := "{\"fc\":\"" + q[0] + "\",\"pk\":\"" + q[1] + "\",\"ak\":\"" + q[2]
                             + "\",\"sk\":\"" + q[3] + "\"}";
                 profile.Length == |text| + 1 && profile[..] == text + "\0"
  {
    hide Quoted, QuoteCount, Json;
    QuotedCount(params);
    profile := null;
    var fc := GetParam(params);
    if fc.None? {
      return;
    }
    var rest := Advance(params);
    var pk := GetParam(rest);
    if pk.None? {
      return;
    }
    rest := Advance(rest);
    var ak := GetParam(rest);
    if ak.None? {
      return;
    }
    rest := Advance(rest);
    var sk := GetParam(rest);
    if sk.None? {
      return;
    }
    QuotedHasNoNul(params);
    profile := Build(fc.value, pk.value, ak.value, sk.value);
  }

  lemma {:induction false} QuotedHasNoNul(s: string)
    requires '\0' !in s
    ensures forall i :: 0 <= i < |Quoted(s)| ==> '\0' !in Quoted(s)[i] && '"' !in Quoted(s)[i]
    decreases |s|
  {
    hide Quoted, Find;
    QuotedUnfolds(s);
    var p := Find(s);
    if p < |s| {
      var t := s[p + 1..];
      if Find(t) < |t| {
        QuotedHasNoNul(t[Find(t) + 1..]);
      }
    }
  }

  /** Computes the text's length and builds it piece by piece in a buffer of just that size. */
  method Build(fc: string, pk: string, ak: string, sk: string) returns (profile: array<char>)
    requires '\0' !in fc && '\0' !in pk && '\0' !in ak && '\0' !in sk
    ensures fresh(profile) && profile[..] == Json(fc, pk, ak, sk) + "\0"
    ensures Json(fc, pk, ak, sk)
         == "{\"fc\":\"" + fc + "\",\"pk\":\"" + pk + "\",\"ak\":\"" + ak + "\",\"sk\":\"" + sk + "\"}"
  {
    hide Holds;
    var fcHeader, pkHeader, akHeader, skHeader, tail :=
      "{\"fc\":\"", "\",\"pk\":\"", "\",\"ak\":\"", "\",\"sk\":\"", "\"}";
    var len := |fc| + |pk| + |ak| + |sk| + |fcHeader| + |pkHeader| + |akHeader| + |skHeader| + |tail| + 1;
    profile := new char[len];
    StrCpy(profile, fcHeader);
    ghost var text := fcHeader;
    StrCat(profile, fc, text);
    text := text + fc;
    StrCat(profile, pkHeader, text);
    text := text + pkHeader;
    StrCat(profile, pk, text);
    text := text + pk;
    StrCat(profile, akHeader, text);
    text := text + akHeader;
    StrCat(profile, ak, text);
    text := text + ak;
    StrCat(profile, skHeader, text);
    text := text + skHeader;
    StrCat(profile, sk, text);
    text := text + sk;
    StrCat(profile, tail, text);
    text := text + tail;
    assert text == Json(fc, pk, ak, sk);
    HoldsExactly(profile[..], text);
  }

  lemma {:induction false} FindAfter(pre: string, rest: string)
    requires '"' !in pre && rest != "" && rest[0] == '"'
    ensures Find(pre + rest) == |pre|
  {
    if pre == "" {
      assert pre + rest == rest;
    } else {
      assert (pre + rest)[1..] == pre[1..] + rest;
      FindAfter(pre[1..], rest);
    }
  }

  /** A key and its value: the text `h` opens with `pre`, quotes `key` and opens the value's quotes. */
  lemma {:induction false} QuotedPair(pre: string, key: string, h: string, x: string, rest: string)
    requires '"' !in pre && '"' !in key && '"' !in x && rest != "" && rest[0] == '"'
    requires h == pre + ("\"" + (key + "\":\""))
    ensures Quoted(h + (x + rest)) == [key, x] + Quoted(rest[1..])
  {
    hide Quoted, Find;
    var s0 := h + (x + rest);
    var s1 := key + ("\":\"" + (x + rest));
    assert s0 == pre + ("\"" + s1);
    QuotedFirst(pre, key, s0, ":\"" + (x + rest));
    assert ":\"" + (x + rest) == ":" + ("\"" + (x + rest));
    QuotedFirst(":", x, ":\"" + (x + rest), rest[1..]);
  }

  lemma {:induction false} QuotedFirst(pre: string, x: string, s: string, rest: string)
    requires '"' !in pre && '"' !in x && s == pre + ("\"" + (x + ("\"" + rest)))
    ensures Quoted(s) == [x] + Quoted(rest)
  {
    hide *;
    var t := x + ("\"" + rest);
    FindAfter(pre, "\"" + t);
    FindAfter(x, "\"" + rest);
    AroundQuote(pre, t);
    AroundQuote(x, rest);
    QuotedUnfolds(s);
  }

  lemma {:induction false} AroundQuote(a: string, b: string)
    ensures var s := a + ("\"" + b);
            |a| < |s| && s[..|a|] == a && s[|a| + 1..] == b
  {
  }

  lemma {:induction false} JsonNests(fc: string, pk: string, ak: string, sk: string)
    ensures Json(fc, pk, ak, sk) ==
            "{\"fc\":\"" + (fc + ("\",\"pk\":\"" + (pk + ("\",\"ak\":\"" + (ak + ("\",\"sk\":\"" + (sk + "\"}")))))))
  {
    var h1, h2, h3, h4, e := "{\"fc\":\"", "\",\"pk\":\"", "\",\"ak\":\"", "\",\"sk\":\"", "\"}";
    Associate(h1 + fc + h2 + pk + h3 + ak + h4, sk, e);
    Associate(h1 + fc + h2 + pk + h3 + ak, h4, sk + e);
    Associate(h1 + fc + h2 + pk + h3, ak, h4 + (sk + e));
    Associate(h1 + fc + h2 + pk, h3, ak + (h4 + (sk + e)));
    Associate(h1 + fc + h2, pk, h3 + (ak + (h4 + (sk + e))));
    Associate(h1 + fc, h2, pk + (h3 + (ak + (h4 + (sk + e)))));
    Associate(h1, fc, h2 + (pk + (h3 + (ak + (h4 + (sk + e))))));
  }

  /** Reading the built text's quoted substrings gives the keys and the parameters back. */
  lemma {:induction false} ProfileRoundTrip(fc: string, pk: string, ak: string, sk: string)
    requires '"' !in fc && '"' !in pk && '"' !in ak && '"' !in sk
    ensures Quoted(Json(fc, pk, ak, sk)) == ["fc", fc, "pk", pk, "ak", ak, "sk", sk]
  {
    hide Quoted, Json;
    var r4 := "\"}";
    var r3 := "\",\"sk\":\"" + (sk + r4);
    var r2 := "\",\"ak\":\"" + (ak + r3);
    var r1 := "\",\"pk\":\"" + (pk + r2);
    JsonNests(fc, pk, ak, sk);
    QuotedPair("{", "fc", "{\"fc\":\"", fc, r1);
    assert r1[1..] == ",\"pk\":\"" + (pk + r2);
    QuotedPair(",", "pk", ",\"pk\":\"", pk, r2);
    assert r2[1..] == ",\"ak\":\"" + (ak + r3);
    QuotedPair(",", "ak", ",\"ak\":\"", ak, r3);
    assert r3[1..] == ",\"sk\":\"" + (sk + r4);
    QuotedPair(",", "sk", ",\"sk\":\"", sk, r4);
    QuotedNothing(r4[1..]);
  }

  lemma {:induction false} QuotedNothing(s: string)
    requires '"' !in s
    ensures Quoted(s) == []
  {
    assert Find(s) == |s|;
  }
}

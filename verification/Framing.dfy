/** The text frame of a message, `msg_id-send_id-recv_id-payload`, as written by
    ModelServer._send_msg and read by ModelServer._parse_msg in
    script/self_driving/model_server.py.
 */
module Framing {
  import opened Basics

  // ---- Integers as text ----

  function Digit(d: nat): (c: char)
    requires d < 10
  {
    '0' + d as char
  }

  predicate IsDigit(c: char) { '0' <= c <= '9' }

  function PrintNat(n: nat): (s: string)
    ensures s != []
  {
    if n < 10 then [Digit(n)] else PrintNat(n / 10) + [Digit(n % 10)]
  }

  /** str(n) */
  function PrintInt(n: int): (s: string) {
    if n < 0 then "-" + PrintNat(-n) else PrintNat(n)
  }

  function TrimLeft(s: string): (r: string) {
    if s != [] && IsSpace(s[0]) then TrimLeft(s[1..]) else s
  }

  function TrimRight(s: string): (r: string) {
    if s != [] && IsSpace(s[|s| - 1]) then TrimRight(s[..|s| - 1]) else s
  }

  /** Digits, with single underscores allowed between digits. */
  function ParseDigits(s: string): (r: Option<nat>) {
    if s == [] then None
    else
      var last := s[|s| - 1];
      if IsDigit(last) then
        var value := (last - '0') as nat;
        if |s| == 1 then Some(value)
        else
          var rest := s[..|s| - 1];
          var high := ParseDigits(if rest[|rest| - 1] == '_' then rest[..|rest| - 1] else rest);
          if high.None? then None else Some(10 * high.value + value)
      else None
  }

  /** int(s), None for ValueError */
  function ParseInt(s: string): (r: Option<int>) {
    var t := TrimRight(TrimLeft(s));
    var signed := t != [] && (t[0] == '-' || t[0] == '+');
    var n := ParseDigits(if signed then t[1..] else t);
    if n.None? then None else Some(if signed && t[0] == '-' then 0 - n.value else n.value)
  }

  lemma {:induction false} PrintNatDigits(n: nat)
    ensures forall i :: 0 <= i < |PrintNat(n)| ==> IsDigit(PrintNat(n)[i])
    decreases n
  {
    if n >= 10 { PrintNatDigits(n / 10); }
  }

  lemma {:induction false} ParsePrintDigits(n: nat)
    ensures ParseDigits(PrintNat(n)) == Some(n)
    decreases n
  {
    var s := PrintNat(n);
    if n >= 10 {
      ParsePrintDigits(n / 10);
      PrintNatDigits(n / 10);
      assert s[..|s| - 1] == PrintNat(n / 10);
    }
  }

  lemma {:induction false} ParsePrintInt(n: nat)
    ensures ParseInt(PrintNat(n)) == Some(n)
  {
    var s := PrintNat(n);
    PrintNatDigits(n);
    ParsePrintDigits(n);
    assert IsDigit(s[0]) && IsDigit(s[|s| - 1]);
    assert TrimRight(TrimLeft(s)) == s;
  }

  // ---- The frame ----

  function Format(msgId: int, sendId: int, recvId: int, payload: string): (frame: string) {
    PrintInt(msgId) + "-" + (PrintInt(sendId) + "-" + (PrintInt(recvId) + "-" + payload))
  }

  /** The text up to the first dash, and the text after it. */
  function Cut(s: string): (r: Option<(string, string)>)
    ensures r.Some? ==> s == r.value.0 + "-" + r.value.1 && '-' !in r.value.0
    ensures r.None? ==> '-' !in s
  {
    if s == [] then None
    else if s[0] == '-' then Some(([], s[1..]))
    else
      var rest := Cut(s[1..]);
      if rest.None? then None else Some(([s[0]] + rest.value.0, rest.value.1))
  }

  /** s.split('-', k) */
  function Split(s: string, k: nat): (tokens: seq<string>)
    ensures tokens != []
    decreases k
  {
    if k == 0 || Cut(s).None? then [s] else [Cut(s).value.0] + Split(Cut(s).value.1, k - 1)
  }

  /** _parse_msg: the three ids and the payload text; BadIds when an id is no integer;
      Crash for the IndexError raised when there are too few tokens. */
  datatype Parsed = Message(msgId: int, sendId: int, recvId: int, payload: string) | BadIds | Crash

  function Parse(frame: string): (r: Parsed) {
    ParseTokens(Split(frame, 3))
  }

  function ParseTokens(tokens: seq<string>): (r: Parsed)
    requires tokens != []
  {
    if ParseInt(tokens[0]).None? then BadIds
    else if |tokens| < 2 then Crash
    else if ParseInt(tokens[1]).None? then BadIds
    else if |tokens| < 3 then Crash
    else if ParseInt(tokens[2]).None? then BadIds
    else if |tokens| < 4 then Crash
    else Message(ParseInt(tokens[0]).value, ParseInt(tokens[1]).value, ParseInt(tokens[2]).value, tokens[3])
  }

  lemma {:induction false} CutAt(a: string, b: string)
    requires '-' !in a
    ensures Cut(a + "-" + b) == Some((a, b))
    decreases |a|
  {
    var s := a + "-" + b;
    if a == [] {
      assert s[1..] == b;
    } else {
      assert s[1..] == a[1..] + "-" + b;
      CutAt(a[1..], b);
      assert a == [a[0]] + a[1..];
    }
  }

  lemma {:induction false} PrintNatNoDash(n: nat)
    ensures '-' !in PrintNat(n)
  {
    PrintNatDigits(n);
  }

  lemma {:induction false} SplitFirst(n: nat, rest: string, k: nat)
    requires k > 0
    ensures Split(PrintInt(n) + "-" + rest, k) == [PrintNat(n)] + Split(rest, k - 1)
  {
    PrintNatNoDash(n);
    CutAt(PrintNat(n), rest);
  }

  /** A negative number starts with a dash, so splitting leaves an empty token. */
  lemma {:induction false} SplitNegative(n: int, rest: string, k: nat)
    requires n < 0 && k > 0
    ensures Split(PrintInt(n) + "-" + rest, k)[0] == []
  {
    var tail := PrintNat(-n) + "-" + rest;
    assert PrintInt(n) + "-" + rest == [] + "-" + tail;
    CutAt([], tail);
  }

  lemma {:induction false} EmptyIsNoInt()
    ensures ParseInt([]).None?
  {
  }

  lemma {:induction false} FrameTokens(msgId: int, sendId: int, recvId: int, payload: string)
    ensures var tokens := Split(Format(msgId, sendId, recvId, payload), 3);
            if msgId < 0 then tokens[0] == []
            else if sendId < 0 then |tokens| > 1 && tokens[0] == PrintNat(msgId) && tokens[1] == []
            else if recvId < 0 then
              |tokens| > 2 && tokens[0] == PrintNat(msgId) && tokens[1] == PrintNat(sendId) && tokens[2] == []
            else tokens == [PrintNat(msgId), PrintNat(sendId), PrintNat(recvId), payload]
  {
    var rest2 := PrintInt(recvId) + "-" + payload;
    var rest1 := PrintInt(sendId) + "-" + rest2;
    if msgId < 0 {
      SplitNegative(msgId, rest1, 3);
    } else {
      SplitFirst(msgId, rest1, 3);
      if sendId < 0 {
        SplitNegative(sendId, rest2, 2);
      } else {
        SplitFirst(sendId, rest2, 2);
        if recvId < 0 { SplitNegative(recvId, payload, 1); } else { SplitFirst(recvId, payload, 1); }
      }
    }
  }

  /** Writing a frame and reading it back gives the same ids and payload, whatever the
      payload contains, exactly if no id is negative; otherwise the frame is rejected. */
  lemma {:induction false} FrameRoundTrip(msgId: int, sendId: int, recvId: int, payload: string)
    ensures Parse(Format(msgId, sendId, recvId, payload)) ==
            if msgId >= 0 && sendId >= 0 && recvId >= 0
            then Message(msgId, sendId, recvId, payload)
            else BadIds
  {
    FrameTokens(msgId, sendId, recvId, payload);
    EmptyIsNoInt();
    if msgId >= 0 { ParsePrintInt(msgId); }
    if sendId >= 0 { ParsePrintInt(sendId); }
    if recvId >= 0 { ParsePrintInt(recvId); }
  }
}

/** `daoBaseIp2Int`: dotted-decimal text to a 32-bit address, reading a NUL-terminated string. */
module DottedDecimal {
  import opened Wrappers

  newtype int32 = x: int | -0x8000_0000 <= x < 0x8000_0000
  newtype uint32 = x: int | 0 <= x < 0x1_0000_0000

  const DAO_ERROR: uint32 := 1

  predicate Digit(c: char) {
    '0' <= c <= '9'
  }

  predicate DigitsIn(s: string, i: nat, j: nat)
    requires j <= |s|
  {
    forall x :: i <= x < j ==> Digit(s[x])
  }

  function DigitValue(c: char): (d: nat)
    requires Digit(c)
    ensures d < 10
  {
    c as int - '0' as int
  }

  /** The number that the digits s[i], ..., s[j - 1] denote; no digits denote 0. */
  function Number(s: string, i: nat, j: nat): nat
    requires i <= j <= |s| && DigitsIn(s, i, j)
  {
    if i == j then 0 else 10 * Number(s, i, j - 1) + DigitValue(s[j - 1])
  }

  predicate Terminated(s: string) {
    s != [] && s[|s| - 1] == '\0'
  }

  /** Where the run of digits that starts at `at` ends. */
  function RunEnd(s: string, at: nat): (end: nat)
    requires Terminated(s) && at < |s|
    ensures at <= end < |s| && DigitsIn(s, at, end) && !Digit(s[end])
    decreases |s| - at
  {
    if Digit(s[at]) then RunEnd(s, at + 1) else at
  }

  /** The rest of the address from octet k on, or None: the reading the code gives to any text. */
  function Parse(s: string, at: nat, k: nat, v: nat): Option<nat>
    requires Terminated(s) && at < |s| && k <= 3
    decreases 3 - k
  {
    var end := RunEnd(s, at);
    var n := Number(s, at, end);
    if k < 3 && s[end] != '.' then None
    else if n >= 256 then None
    else if k == 3 then Some(v * 256 + n)
    else Parse(s, end + 1, k + 1, v * 256 + n)
  }

  /**
   Every number that is read fits a C int.  Beyond that the code's accumulation overflows a
   signed int, which C leaves undefined; numbers after the fourth, or after an error, do not count.
   */
  ghost predicate ReadsFitInt(s: string, at: nat, k: nat)
    requires Terminated(s) && at < |s| && k <= 3
    decreases 3 - k
  {
    var end := RunEnd(s, at);
    && Number(s, at, end) < 0x8000_0000
    && (k < 3 && s[end] == '.' && Number(s, at, end) < 256 ==> ReadsFitInt(s, end + 1, k + 1))
  }

  lemma {:induction false} PrefixSmaller(s: string, i: nat, j: nat, end: nat)
    requires i <= j <= end <= |s| && DigitsIn(s, i, end)
    ensures Number(s, i, j) <= Number(s, i, end)
    decreases end
  {
    if j < end { PrefixSmaller(s, i, j, end - 1); }
  }

  /** The inner loop: one number, stopping at its first non-digit. */
  method ReadOctet(ip: string, start: nat) returns (n: int32, end: nat)
    requires Terminated(ip) && start < |ip| && Number(ip, start, RunEnd(ip, start)) < 0x8000_0000
    ensures end == RunEnd(ip, start) && n as int == Number(ip, start, end)
  {
    n, end := 0, start;
    while Digit(ip[end])
      invariant start <= end < |ip| && RunEnd(ip, end) == RunEnd(ip, start)
      invariant DigitsIn(ip, start, end) && n as int == Number(ip, start, end)
      decreases |ip| - end
    {
      PrefixSmaller(ip, start, end + 1, RunEnd(ip, start));
      n := n * 10;
      n := n + DigitValue(ip[end]) as int32;
      end := end + 1;
    }
  }

  /** `daoBaseIp2Int`: the parsed address, or DAO_ERROR (which is also the address 0.0.0.1). */
  method Ip2Int(ip: string) returns (v: uint32)
    requires Terminated(ip) && ReadsFitInt(ip, 0, 0)
    ensures v as int == match Parse(ip, 0, 0, 0) case Some(a) => a case None => DAO_ERROR as int
    ensures v == DAO_ERROR <==> Parse(ip, 0, 0, 0) == None || Parse(ip, 0, 0, 0) == Some(1)
  {
    v := 0;
    var start: nat := 0;
    for i := 0 to 4
      invariant 0 <= v as int < Bound(i)
      invariant i < 4 ==> start < |ip| && Parse(ip, 0, 0, 0) == Parse(ip, start, i, v as int)
      invariant i < 4 ==> ReadsFitInt(ip, start, i)
      invariant i == 4 ==> Parse(ip, 0, 0, 0) == Some(v as int)
    {
      var n, end := ReadOctet(ip, start);
      if i < 3 && ip[end] != '.' {
        return DAO_ERROR;
      }
      if n >= 256 {
        return DAO_ERROR;
      }
      v := v * 256;
      v := v + n as uint32;
      start := end + 1;
    }
  }

  /** 256 to the power i. */
  function Bound(i: nat): nat
    requires i <= 4
  {
    if i == 0 then 1 else if i == 1 then 0x100 else if i == 2 then 0x1_0000
    else if i == 3 then 0x100_0000 else 0x1_0000_0000
  }

  /** Runs of digits with dots between, then the tail. */
  function Joined(octets: seq<string>, tail: string): (s: string)
    ensures |s| >= |tail|
  {
    if octets == [] then tail
    else if |octets| == 1 then octets[0] + tail
    else octets[0] + "." + Joined(octets[1..], tail)
  }

  predicate DigitRuns(octets: seq<string>) {
    forall i :: 0 <= i < |octets| ==> DigitsIn(octets[i], 0, |octets[i]|)
  }

  function Numbers(octets: seq<string>): (ns: seq<nat>)
    requires DigitRuns(octets)
    ensures |ns| == |octets|
  {
    if octets == [] then [] else [Number(octets[0], 0, |octets[0]|)] + Numbers(octets[1..])
  }

  /** The value that octets add to v, or None when one of them is 256 or more. */
  function Value(ns: seq<nat>, v: nat): Option<nat> {
    if ns == [] then Some(v)
    else if ns[0] >= 256 then None
    else Value(ns[1..], v * 256 + ns[0])
  }

  /** A number reads the same wherever its digits stand. */
  lemma {:induction false} NumberMoves(digits: string, s: string, at: nat, len: nat)
    requires len <= |digits| && DigitsIn(digits, 0, len) && at + len <= |s|
    requires forall x :: 0 <= x < len ==> s[at + x] == digits[x]
    ensures DigitsIn(s, at, at + len) && Number(s, at, at + len) == Number(digits, 0, len)
    decreases len
  {
    forall x | at <= x < at + len ensures Digit(s[x]) { assert s[at + (x - at)] == digits[x - at]; }
    if len > 0 { NumberMoves(digits, s, at, len - 1); }
  }

  lemma {:induction false} RunEndIs(s: string, at: nat, end: nat)
    requires Terminated(s) && at <= end < |s| && DigitsIn(s, at, end) && !Digit(s[end])
    ensures RunEnd(s, at) == end
    decreases end - at
  {
    if at < end { RunEndIs(s, at + 1, end); }
  }

  /** One octet and the character after it, standing at `at` in the text. */
  lemma OctetReads(pre: string, octet: string, post: string)
    requires DigitsIn(octet, 0, |octet|) && Terminated(post) && !Digit(post[0])
    ensures var s := pre + octet + post;
            && Terminated(s) && RunEnd(s, |pre|) == |pre| + |octet| && s[|pre| + |octet|] == post[0]
            && Number(s, |pre|, |pre| + |octet|) == Number(octet, 0, |octet|)
  {
    var s := pre + octet + post;
    assert s[|s| - 1] == post[|post| - 1];
    NumberMoves(octet, s, |pre|, |octet|);
    RunEndIs(s, |pre|, |pre| + |octet|);
  }

  lemma {:induction false} JoinedTerminated(octets: seq<string>, tail: string)
    requires Terminated(tail)
    ensures Terminated(Joined(octets, tail))
    decreases |octets|
  {
    if |octets| > 1 { JoinedTerminated(octets[1..], tail); }
  }

  /**
   Four runs of digits (any of them may be empty) with dots between and then anything but a digit
   are accepted exactly when each is below 256, and denote their address.
   */
  lemma {:induction false} ParseJoined(pre: string, octets: seq<string>, tail: string, k: nat, v: nat)
    requires k <= 3 && |octets| == 4 - k && DigitRuns(octets) && Terminated(tail) && !Digit(tail[0])
    ensures var s := pre + Joined(octets, tail);
            Terminated(s) && |pre| < |s| && Parse(s, |pre|, k, v) == Value(Numbers(octets), v)
    decreases 3 - k
  {
    var s := pre + Joined(octets, tail);
    if k == 3 {
      assert s == pre + octets[0] + tail;
      OctetReads(pre, octets[0], tail);
    } else {
      var rest := Joined(octets[1..], tail);
      JoinedTerminated(octets[1..], tail);
      var post := "." + rest;
      assert s == pre + octets[0] + post;
      OctetReads(pre, octets[0], post);
      var pre' := pre + octets[0] + ".";
      assert s == pre' + rest;
      ParseJoined(pre', octets[1..], tail, k + 1, v * 256 + Number(octets[0], 0, |octets[0]|));
    }
  }

  /** Such a text is within what the code can accumulate when every number fits a C int. */
  lemma {:induction false} JoinedFits(pre: string, octets: seq<string>, tail: string, k: nat)
    requires k <= 3 && |octets| == 4 - k && DigitRuns(octets) && Terminated(tail) && !Digit(tail[0])
    requires forall i :: 0 <= i < |octets| ==> Number(octets[i], 0, |octets[i]|) < 0x8000_0000
    ensures var s := pre + Joined(octets, tail);
            Terminated(s) && |pre| < |s| && ReadsFitInt(s, |pre|, k)
    decreases 3 - k
  {
    var s := pre + Joined(octets, tail);
    if k == 3 {
      assert s == pre + octets[0] + tail;
      OctetReads(pre, octets[0], tail);
    } else {
      var rest := Joined(octets[1..], tail);
      JoinedTerminated(octets[1..], tail);
      assert s == pre + octets[0] + ("." + rest);
      OctetReads(pre, octets[0], "." + rest);
      var pre' := pre + octets[0] + ".";
      assert s == pre' + rest;
      JoinedFits(pre', octets[1..], tail, k + 1);
    }
  }

  lemma SplitAtDot(s: string, at: nat, end: nat)
    requires at <= end < |s| && s[end] == '.'
    ensures s[at..] == s[at..end] + "." + s[end + 1..]
  {
    var joined := s[at..end] + "." + s[end + 1..];
    assert |joined| == |s[at..]|;
  }

  lemma LastOctet(s: string, at: nat)
    requires Terminated(s) && at < |s|
    ensures var octet, tail := s[at..RunEnd(s, at)], s[RunEnd(s, at)..];
            DigitRuns([octet]) && Terminated(tail) && !Digit(tail[0]) && s[at..] == Joined([octet], tail)
  {}

  lemma EarlierOctet(s: string, at: nat, rest: seq<string>, tail: string)
    requires Terminated(s) && at < |s| && s[RunEnd(s, at)] == '.'
    requires rest != [] && DigitRuns(rest) && s[RunEnd(s, at) + 1..] == Joined(rest, tail)
    ensures DigitRuns([s[at..RunEnd(s, at)]] + rest) && s[at..] == Joined([s[at..RunEnd(s, at)]] + rest, tail)
  {
    var octets := [s[at..RunEnd(s, at)]] + rest;
    assert octets[1..] == rest;
    SplitAtDot(s, at, RunEnd(s, at));
  }

  /** Conversely, whatever is accepted has that form. */
  lemma {:induction false} AcceptedIsJoined(s: string, at: nat, k: nat, v: nat)
    returns (octets: seq<string>, tail: string)
    requires Terminated(s) && at < |s| && k <= 3 && Parse(s, at, k, v).Some?
    ensures |octets| == 4 - k && DigitRuns(octets) && Terminated(tail) && !Digit(tail[0])
    ensures s[at..] == Joined(octets, tail)
    decreases 3 - k
  {
    hide Joined, DigitRuns, Number;
    var end := RunEnd(s, at);
    if k == 3 {
      octets, tail := [s[at..end]], s[end..];
      LastOctet(s, at);
    } else {
      var rest;
      rest, tail := AcceptedIsJoined(s, end + 1, k + 1, v * 256 + Number(s, at, end));
      octets := [s[at..end]] + rest;
      EarlierOctet(s, at, rest, tail);
    }
  }

  /** The address of four octets. */
  function Address(a: nat, b: nat, c: nat, d: nat): nat {
    a * 0x100_0000 + b * 0x1_0000 + c * 0x100 + d
  }

  /** Decimal text without leading zeros. */
  function Decimal(n: nat): (s: string)
    ensures s != []
  {
    if n < 10 then [('0' as int + n) as char] else Decimal(n / 10) + [('0' as int + n % 10) as char]
  }

  lemma {:induction false} DecimalDenotes(n: nat)
    ensures DigitsIn(Decimal(n), 0, |Decimal(n)|) && Number(Decimal(n), 0, |Decimal(n)|) == n
    decreases n
  {
    if n >= 10 {
      var s := Decimal(n);
      DecimalDenotes(n / 10);
      NumberMoves(Decimal(n / 10), s, 0, |s| - 1);
    }
  }

  lemma ValueOfFour(a: nat, b: nat, c: nat, d: nat)
    ensures Value([a, b, c, d], 0)
         == if a < 256 && b < 256 && c < 256 && d < 256 then Some(Address(a, b, c, d)) else None
  {
    assert [a, b, c, d][1..] == [b, c, d] && [b, c, d][1..] == [c, d] && [c, d][1..] == [d] && [d][1..] == [];
    assert Value([d], (a * 256 + b) * 256 + c) == if d >= 256 then None else Some(Address(a, b, c, d));
    assert Value([c, d], a * 256 + b) == if c >= 256 then None else Value([d], (a * 256 + b) * 256 + c);
    assert Value([b, c, d], a) == if b >= 256 then None else Value([c, d], a * 256 + b);
  }

  /** Printing four numbers and reading the text back, whatever non-digit follows. */
  lemma {:induction false} PrintThenParse(a: nat, b: nat, c: nat, d: nat, tail: string)
    requires Terminated(tail) && !Digit(tail[0])
    ensures var text := Joined([Decimal(a), Decimal(b), Decimal(c), Decimal(d)], tail);
            && Terminated(text)
            && Parse(text, 0, 0, 0)
            == if a < 256 && b < 256 && c < 256 && d < 256 then Some(Address(a, b, c, d)) else None
  {
    var octets := [Decimal(a), Decimal(b), Decimal(c), Decimal(d)];
    PrintedNumbers(a, b, c, d);
    ParseJoined([], octets, tail, 0, 0);
    assert [] + Joined(octets, tail) == Joined(octets, tail);
    ValueOfFour(a, b, c, d);
  }

  lemma {:induction false} PrintedNumbers(a: nat, b: nat, c: nat, d: nat)
    ensures var octets := [Decimal(a), Decimal(b), Decimal(c), Decimal(d)];
            DigitRuns(octets) && Numbers(octets) == [a, b, c, d]
  {
    DecimalDenotes(a);
    DecimalDenotes(b);
    DecimalDenotes(c);
    DecimalDenotes(d);
    var octets := [Decimal(a), Decimal(b), Decimal(c), Decimal(d)];
    assert octets[1..] == [Decimal(b), Decimal(c), Decimal(d)];
    assert octets[1..][1..] == [Decimal(c), Decimal(d)];
    assert octets[1..][1..][1..] == [Decimal(d)];
    assert Numbers(octets[1..][1..][1..]) == [d];
    assert Numbers(octets[1..][1..]) == [c, d];
    assert Numbers(octets[1..]) == [b, c, d];
  }

  lemma PairInjective(x: nat, p: nat, y: nat, q: nat)
    requires p < 256 && q < 256
    ensures x * 256 + p == y * 256 + q <==> x == y && p == q
  {}

  /** The address determines its octets, so the round trip loses nothing. */
  lemma {:induction false} AddressInjective(a: nat, b: nat, c: nat, d: nat, a': nat, b': nat, c': nat, d': nat)
    requires a < 256 && b < 256 && c < 256 && d < 256 && a' < 256 && b' < 256 && c' < 256 && d' < 256
    ensures Address(a, b, c, d) == Address(a', b', c', d') <==> a == a' && b == b' && c == c' && d == d'
  {
    PairInjective(a, b, a', b');
    PairInjective(a * 256 + b, c, a' * 256 + b', c');
    PairInjective((a * 256 + b) * 256 + c, d, (a' * 256 + b') * 256 + c', d');
  }
}

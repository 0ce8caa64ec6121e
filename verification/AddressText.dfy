/** Addresses as text: the address(const char*) constructor and ip::to_string. */
module AddressText {
  import opened Common

  // ---------- numerals ----------

  /** 10 for IPv4 and ports, 16 for IPv6. */
  type Base = b: nat | 2 <= b <= 16 witness 10

  function Digit(v: nat): (c: char)
    requires v < 16
    ensures DigitValue(c) == v
  {
    if v < 10 then '0' + v as char else 'a' + (v - 10) as char
  }

  /** What the digit stands for; 16 if it is none. */
  function DigitValue(c: char): nat {
    if '0' <= c <= '9' then (c - '0') as nat
    else if 'a' <= c <= 'f' then 10 + (c - 'a') as nat
    else 16
  }

  predicate IsDigit(c: char) {
    '0' <= c <= '9'
  }

  predicate AllDigits(s: string, b: Base) {
    forall i :: 0 <= i < |s| ==> DigitValue(s[i]) < b
  }

  /** The value of a numeral, read from left to right. */
  function Value(s: string, b: Base): nat {
    if s == "" then 0 else Value(s[..|s| - 1], b) * b + DigitValue(s[|s| - 1])
  }

  /** What a stream prints for n. */
  function Numeral(n: nat, b: Base): (s: string)
    ensures s != "" && AllDigits(s, b)
  {
    if n < b then [Digit(n)]
    else
      DivMod(n, b);
      Numeral(n / b, b) + [Digit(n % b)]
  }

  lemma DivMod(n: nat, b: Base)
    ensures n / b * b + n % b == n && n % b < b
    ensures n >= b ==> n / b < n
  {
    var q := n / b;
    assert q * b + n % b == n;
    Grows(q, 2, b);
  }

  function Pow(b: nat, n: nat): nat {
    if n == 0 then 1 else b * Pow(b, n - 1)
  }

  lemma {:induction false} NumeralValue(n: nat, b: Base)
    ensures Value(Numeral(n, b), b) == n
    decreases n
  {
    hide Digit, DigitValue, AllDigits;
    var s := Numeral(n, b);
    if n < b {
      assert s[..0] == "";
    } else {
      DivMod(n, b);
      NumeralValue(n / b, b);
      assert s[..|s| - 1] == Numeral(n / b, b);
    }
  }

  /** A number of k digits prints as no more than k. */
  lemma {:induction false} NumeralLength(n: nat, b: Base, k: nat)
    requires 1 <= k && n < Pow(b, k)
    ensures |Numeral(n, b)| <= k
    decreases k
  {
    if n < b {
    } else {
      assert k > 1;
      Quotient(n, b, Pow(b, k - 1));
      NumeralLength(n / b, b, k - 1);
    }
  }

  lemma Quotient(n: nat, b: Base, m: nat)
    requires n < b * m
    ensures n / b < m
  {
    assert n == b * (n / b) + n % b;
    if n / b >= m {
      Grows(b, m, n / b);
    }
  }

  lemma Grows(b: nat, x: nat, y: nat)
    requires x <= y
    ensures b * x <= b * y
  {
  }

  /** The step of the source's backward loop: one more digit on the left. */
  lemma {:induction false} LeadingDigit(c: char, s: string, b: Base)
    requires DigitValue(c) < b && AllDigits(s, b)
    ensures Value([c] + s, b) == DigitValue(c) * Pow(b, |s|) + Value(s, b)
    ensures Value(s, b) < Pow(b, |s|)
    decreases |s|
  {
    hide DigitValue;
    var w := [c] + s;
    if s == "" {
      assert w[..0] == "";
    } else {
      var t := s[..|s| - 1];
      LeadingDigit(c, t, b);
      assert w[..|w| - 1] == [c] + t;
      Distribute(DigitValue(c), Pow(b, |t|), Value(t, b), b, DigitValue(s[|t|]));
    }
  }

  lemma Distribute(c: nat, p: nat, v: nat, b: nat, d: nat)
    requires v < p && d < b
    ensures (c * p + v) * b + d == c * (b * p) + (v * b + d)
    ensures v * b + d < b * p
  {
    assert (c * p + v) * b == c * (b * p) + v * b;
    Grows(b, v + 1, p);
  }

  // ---------- the port ----------

  /** The digits a text starts with. */
  function DigitRun(s: string): string {
    if s == "" || !IsDigit(s[0]) then "" else [s[0]] + DigitRun(s[1..])
  }

  /** The port that follows a host; None stands for the exception. */
  function PortOf(s: string): Option<uint16> {
    if s == "" then Some(0)
    else if s[0] != ':' then None
    else
      var run := DigitRun(s[1..]);
      if |run| <= 5 && Value(run, 10) <= 0xffff then Some(Value(run, 10)) else None
  }

  /** The character at a position, the terminating zero past the end. */
  function At(s: string, i: nat): char
    requires i <= |s|
  {
    if i < |s| then s[i] else '\0'
  }

  lemma {:induction false} DigitRunIs(run: string, rest: string)
    requires forall i :: 0 <= i < |run| ==> IsDigit(run[i])
    ensures rest == "" || !IsDigit(rest[0]) ==> DigitRun(run + rest) == run
    ensures run <= DigitRun(run + rest)
    decreases |run|
  {
    if run == "" {
      assert run + rest == rest;
    } else {
      DigitRunIs(run[1..], rest);
      assert (run + rest)[1..] == run[1..] + rest;
    }
  }

  /** Whatever stands after ':', the port is its leading digits: accepted iff there are at most five and they
      make at most 65535, and what follows them is ignored. */
  lemma PortExactly(s: string, run: string, rest: string)
    requires s != "" && s[0] == ':' && s[1..] == run + rest
    requires forall i :: 0 <= i < |run| ==> IsDigit(run[i])
    requires rest == "" || !IsDigit(rest[0])
    ensures PortOf(s) == if |run| <= 5 && Value(run, 10) <= 0xffff then Some(Value(run, 10)) else None
  {
    hide Value, IsDigit, DigitRun;
    DigitRunIs(run, rest);
  }

  /** The port's text in full: it is accepted with value p iff it is empty and p is 0, or it is a colon, at most five
      digits of value p, and then nothing or something that is no digit. */
  ghost predicate SpellsPort(s: string, run: string, rest: string, p: uint16) {
    && s == ":" + run + rest && |run| <= 5 && (forall i :: 0 <= i < |run| ==> '0' <= run[i] <= '9')
    && (rest == "" || !('0' <= rest[0] <= '9'))
    && Value(run, 10) == p
  }

  lemma PortAcceptedExactly(s: string, p: uint16)
    ensures PortOf(s) == Some(p) <==> (s == "" && p == 0) || exists run, rest :: SpellsPort(s, run, rest, p)
  {
    hide Value, DigitRun;
    if run, rest :| SpellsPort(s, run, rest, p) {
      assert s[1..] == run + rest;
      PortExactly(s, run, rest);
    }
    if s != "" && s[0] == ':' {
      var run, rest := RunOf(s[1..]);
      assert s == ":" + run + rest;
      if PortOf(s) == Some(p) {
        assert SpellsPort(s, run, rest, p);
      }
    }
  }

  lemma {:induction false} RunOf(s: string) returns (run: string, rest: string)
    ensures s == run + rest && run == DigitRun(s) && forall i :: 0 <= i < |run| ==> '0' <= run[i] <= '9'
    ensures rest == "" || !('0' <= rest[0] <= '9')
    decreases |s|
  {
    if s == "" || !IsDigit(s[0]) {
      run, rest := "", s;
    } else {
      run, rest := RunOf(s[1..]);
      run := [s[0]] + run;
      assert s == [s[0]] + s[1..];
    }
  }

  lemma DecimalDigits(s: string)
    requires AllDigits(s, 10)
    ensures forall i :: 0 <= i < |s| ==> IsDigit(s[i])
  {
    forall i | 0 <= i < |s|
      ensures IsDigit(s[i])
    {
      assert DigitValue(s[i]) < 10;
    }
  }

  /** Every port, printed after ':', reads back whatever text follows that is not a digit. */
  lemma PortReadsBack(s: string, p: uint16, rest: string)
    requires s != "" && s[0] == ':' && s[1..] == Numeral(p, 10) + rest
    requires rest == "" || !IsDigit(rest[0])
    ensures PortOf(s) == Some(p)
  {
    hide PortOf, Value, DigitRun, Pow;
    NumeralValue(p, 10);
    PowerOfTen(5);
    NumeralLength(p, 10, 5);
    DecimalDigits(Numeral(p, 10));
    PortExactly(s, Numeral(p, 10), rest);
  }

  predicate AllZeros(s: string) {
    forall i :: 0 <= i < |s| ==> s[i] == '0'
  }

  lemma {:induction false} ZerosAddNothing(zeros: string, d: string)
    requires AllZeros(zeros) && AllDigits(d, 10)
    ensures AllDigits(zeros + d, 10) && Value(zeros + d, 10) == Value(d, 10)
    decreases |zeros|
  {
    hide Pow, Value;
    if zeros == "" {
      assert zeros + d == d;
    } else {
      ZerosAddNothing(zeros[1..], d);
      assert zeros + d == [zeros[0]] + (zeros[1..] + d);
      LeadingDigit('0', zeros[1..] + d, 10);
    }
  }

  /** Zeros put before a number count as digits: they change nothing while at most five digits stand there, and
      then the text is refused although its value is a port. */
  lemma LeadingZerosExactly(s: string, zeros: string, n: nat, rest: string)
    requires s != "" && s[0] == ':' && s[1..] == zeros + Numeral(n, 10) + rest
    requires AllZeros(zeros) && (rest == "" || !IsDigit(rest[0]))
    ensures PortOf(s) == if |zeros| + |Numeral(n, 10)| <= 5 && n <= 0xffff then Some(n) else None
  {
    hide PortOf, Value, DigitRun, Pow, AllZeros;
    var run := zeros + Numeral(n, 10);
    NumeralValue(n, 10);
    ZerosAddNothing(zeros, Numeral(n, 10));
    DecimalDigits(run);
    PortExactly(s, run, rest);
  }

  lemma PowerOfTen(i: nat)
    requires i <= 5
    ensures Pow(10, i) <= 100000 && (i == 5 ==> Pow(10, i) == 100000)
  {
    assert Pow(10, 1) == 10 && Pow(10, 3) == 1000 && Pow(10, 5) == 100000;
    assert Pow(10, 2) == 100 && Pow(10, 4) == 10000;
  }

  /** Places are 32-bit here; the loop never overflows them. */
  method TenToThe(i: nat) returns (pow: uint32)
    requires i < 5
    ensures pow == Pow(10, i)
  {
    pow := 1;
    for j := 0 to i
      invariant pow == Pow(10, j)
    {
      PowerOfTen(j + 1);
      pow := pow * 10;
    }
  }

  method ReadPort(s: string, at: nat) returns (port: Option<uint16>)
    requires at <= |s| && '\0' !in s
    ensures port == PortOf(s[at..])
  {
    hide Value;
    if At(s, at) != ':' {
      if At(s, at) == '\0' {
        return Some(0);
      }
      return None;
    }
    var str, i := at + 1, 0;
    while IsDigit(At(s, str)) && i < 5
      invariant 0 <= i <= 5 && str == at + 1 + i <= |s|
      invariant forall k :: at < k < str ==> IsDigit(s[k])
    {
      i, str := i + 1, str + 1;
    }
    ghost var run, rest := s[at + 1..str], s[str..];
    assert s[at..][1..] == s[at + 1..] == run + rest;
    DigitRunIs(run, rest);
    if IsDigit(At(s, str)) {
      SixthDigit(run, rest);
      return None;
    }
    var value := Backwards(s, at, str - 1);
    if value > 0xffff {
      return None;
    }
    return Some(value);
  }

  lemma SixthDigit(run: string, rest: string)
    requires forall i :: 0 <= i < |run| ==> IsDigit(run[i])
    requires rest != "" && IsDigit(rest[0])
    ensures |DigitRun(run + rest)| > |run|
  {
    DigitRunIs(run + [rest[0]], rest[1..]);
    assert run + [rest[0]] + rest[1..] == run + rest;
  }

  /** One turn of the loop below; five places fit 32 bits with room to spare. */
  lemma OneMorePlace(c: char, t: string)
    requires IsDigit(c) && (forall i :: 0 <= i < |t| ==> IsDigit(t[i])) && |t| < 5
    ensures Value([c] + t, 10) == (c - '0') as int * Pow(10, |t|) + Value(t, 10) < 100000
  {
    LeadingDigit(c, t, 10);
    LeadingDigit('0', [c] + t, 10);
    PowerOfTen(|t| + 1);
  }

  /** The loop from the last digit back to the colon. */
  method Backwards(s: string, at: nat, last: nat) returns (port: uint32)
    requires at <= last <= at + 5 && last < |s| && s[at] == ':'
    requires forall k :: at < k <= last ==> IsDigit(s[k])
    ensures port == Value(s[at + 1..last + 1], 10)
  {
    hide Pow;
    port := 0;
    var i, str := 0, last;
    while s[str] != ':'
      invariant at <= str <= last && i == last - str
      invariant port == Value(s[str + 1..last + 1], 10)
      decreases str
    {
      var pow := TenToThe(i);
      ghost var t := s[str + 1..last + 1];
      OneMorePlace(s[str], t);
      assert [s[str]] + t == s[str..last + 1];
      port := port + (s[str] - '0') as int * pow;
      i, str := i + 1, str - 1;
    }
    assert str == at;
  }

  // ---------- the host ----------

  /** What inet_pton makes of a text is not part of this model: any two readers. */
  type Reader<!T> = string -> Option<T>

  datatype Address = Address(host: Ip, port: uint16)

  /** How many characters precede the first stop, or the end. */
  function Upto(s: string, stop: char): (n: nat)
    ensures n <= |s| && stop !in s[..n] && (n < |s| ==> s[n] == stop)
  {
    if s == "" || s[0] == stop then 0
    else
      var n := Upto(s[1..], stop);
      assert s[..n + 1] == [s[0]] + s[1..][..n];
      n + 1
  }

  lemma {:induction false} UptoIs(s: string, stop: char, n: nat)
    requires n <= |s| && stop !in s[..n]
    ensures if n == |s| || s[n] == stop then Upto(s, stop) == n else Upto(s, stop) > n
    decreases n
  {
    if n == 0 {
    } else {
      assert s[0] in s[..n];
      assert forall i :: 0 <= i < n - 1 ==> s[1..][i] in s[..n];
      UptoIs(s[1..], stop, n - 1);
    }
  }

  /** A '.' comes before any ':'. */
  ghost predicate IsV4Text(s: string) {
    exists i :: 0 <= i < |s| && s[i] == '.' && ':' !in s[..i]
  }

  method IsIpV4String(s: string) returns (r: bool)
    ensures r <==> IsV4Text(s)
  {
    var p := 0;
    while p < |s|
      invariant 0 <= p <= |s| && forall k :: 0 <= k < p ==> s[k] != '.' && s[k] != ':'
    {
      if s[p] == '.' {
        return true;
      }
      if s[p] == ':' {
        forall i | 0 <= i < |s| && s[i] == '.'
          ensures ':' in s[..i]
        {
          assert i > p ==> s[p] in s[..i];
        }
        return false;
      }
      p := p + 1;
    }
    return false;
  }

  function WithPort(host: Option<Ip>, port: Option<uint16>): Option<Address> {
    if host.None? || port.None? then None else Some(Address(host.value, port.value))
  }

  function MappedV4(h: Option<uint32>): Option<Ip> {
    if h.None? then None else Some(V4(h.value))
  }

  const BRACKETED := 45
  const DOTTED := 15

  /** The host a text starts with, and what follows it; None stands for the exception. */
  ghost function HostOf(s: string, pton4: Reader<uint32>, pton6: Reader<Ip>): Option<Ip> {
    if s == "" then None
    else if s[0] == '[' then
      var n := Upto(s[1..], ']');
      if n == |s| - 1 || n > BRACKETED then None else pton6(s[1..n + 1])
    else if IsV4Text(s) then
      var n := Upto(s, ':');
      if n > DOTTED then None else MappedV4(pton4(s[..n]))
    else pton6(s)
  }

  ghost function AfterHost(s: string): string {
    if s == "" then ""
    else if s[0] == '[' then
      var n := Upto(s[1..], ']');
      if n == |s| - 1 then "" else s[n + 2..]
    else if IsV4Text(s) then s[Upto(s, ':')..]
    else ""
  }

  /** The address a text denotes; None stands for the exception. */
  ghost function AddressOf(s: string, pton4: Reader<uint32>, pton6: Reader<Ip>): Option<Address> {
    WithPort(HostOf(s, pton4, pton6), PortOf(AfterHost(s)))
  }

  /** No port, or ':' and no digit. */
  ghost predicate Portless(s: string) {
    var t := AfterHost(s);
    t == "" || (t[0] == ':' && DigitRun(t[1..]) == "")
  }

  /** A text without a port is accepted, with port 0, iff its host part is. */
  lemma PortlessExactly(s: string, pton4: Reader<uint32>, pton6: Reader<Ip>)
    requires Portless(s)
    ensures AddressOf(s, pton4, pton6).Some? <==> HostOf(s, pton4, pton6).Some?
    ensures AddressOf(s, pton4, pton6).Some? ==>
              AddressOf(s, pton4, pton6).value == Address(HostOf(s, pton4, pton6).value, 0)
  {
    hide HostOf, AfterHost;
    assert Value("", 10) == 0;
  }

  /** The loop that copies what stands between the brackets; str stops at ']'. */
  method CopyBracketed(s: string, buf: array<char>) returns (str: Option<nat>)
    requires s != "" && '\0' !in s && buf.Length == BRACKETED + 1
    modifies buf
    ensures var n := Upto(s[1..], ']');
            && (str.None? <==> n == |s| - 1 || n > BRACKETED)
            && (str.Some? ==> str.value == n + 1 && buf[..n] == s[1..n + 1] && buf[n] == '\0')
  {
    var i, dst := 1, 0;
    while At(s, i) != ']'
      invariant i == dst + 1 && dst < buf.Length && i <= |s|
      invariant buf[..dst] == s[1..i] && ']' !in s[1..i]
      decreases |s| - i
    {
      if At(s, i) == '\0' || dst + 1 >= buf.Length {
        UptoIs(s[1..], ']', dst);
        return None;
      }
      buf[dst] := s[i];
      i, dst := i + 1, dst + 1;
    }
    buf[dst] := '\0';
    UptoIs(s[1..], ']', dst);
    return Some(i);
  }

  /** The loop that copies a dotted host; str stops at ':' or at the end. */
  method CopyDotted(s: string, buf: array<char>) returns (str: Option<nat>)
    requires '\0' !in s && buf.Length == DOTTED + 1
    modifies buf
    ensures var n := Upto(s, ':');
            && (str.None? <==> n > DOTTED)
            && (str.Some? ==> str.value == n && buf[..n] == s[..n] && buf[n] == '\0')
  {
    var i, dst := 0, 0;
    while At(s, i) != ':' && At(s, i) != '\0'
      invariant i == dst && dst < buf.Length && i <= |s|
      invariant buf[..dst] == s[..i] && ':' !in s[..i]
      decreases |s| - i
    {
      if dst + 1 >= buf.Length {
        UptoIs(s, ':', dst);
        return None;
      }
      buf[dst] := s[i];
      i, dst := i + 1, dst + 1;
    }
    buf[dst] := '\0';
    UptoIs(s, ':', dst);
    return Some(i);
  }

  method ReadAddress(s: string, pton4: Reader<uint32>, pton6: Reader<Ip>) returns (a: Option<Address>)
    requires '\0' !in s
    ensures a == AddressOf(s, pton4, pton6)
  {
    if s == "" {
      return None;
    }
    var host: Option<Ip>, str := None, 0;
    if s[0] == '[' {
      var buf := new char[BRACKETED + 1];
      var end := CopyBracketed(s, buf);
      if end.None? {
        return None;
      }
      host, str := pton6(buf[..end.value - 1]), end.value + 1;
    } else {
      var v4 := IsIpV4String(s);
      if v4 {
        var buf := new char[DOTTED + 1];
        var end := CopyDotted(s, buf);
        if end.None? {
          return None;
        }
        host, str := MappedV4(pton4(buf[..end.value])), end.value;
      } else {
        host := pton6(s);
        return WithPort(host, Some(0));
      }
    }
    if host.None? {
      return None;
    }
    var port := ReadPort(s, str);
    return WithPort(host, port);
  }

  // ---------- printing ----------

  /** A text cut at a separator. */
  datatype Words = Last(w: string) | Next(w: string, rest: Words)

  function Join(ws: Words, sep: char): string {
    if ws.Last? then ws.w else ws.w + [sep] + Join(ws.rest, sep)
  }

  function Cut(s: string, sep: char): Words
    decreases |s|
  {
    var n := Upto(s, sep);
    if n == |s| then Last(s) else Next(s[..n], Cut(s[n + 1..], sep))
  }

  predicate Clean(ws: Words, sep: char) {
    sep !in ws.w && (ws.Next? ==> Clean(ws.rest, sep))
  }

  lemma {:induction false} CutJoin(ws: Words, sep: char)
    requires Clean(ws, sep)
    ensures Cut(Join(ws, sep), sep) == ws
    decreases ws
  {
    var s := Join(ws, sep);
    assert s[..|ws.w|] == ws.w;
    UptoIs(s, sep, |ws.w|);
    if ws.Last? {
    } else {
      CutJoin(ws.rest, sep);
      assert s[|ws.w| + 1..] == Join(ws.rest, sep);
    }
  }

  function Numerals(vs: seq<nat>, b: Base): Words
    requires vs != []
  {
    if |vs| == 1 then Last(Numeral(vs[0], b)) else Next(Numeral(vs[0], b), Numerals(vs[1..], b))
  }

  function Values(ws: Words, b: Base): seq<nat> {
    [Value(ws.w, b)] + if ws.Last? then [] else Values(ws.rest, b)
  }

  lemma {:induction false} NumeralsValues(vs: seq<nat>, b: Base, sep: char)
    requires vs != [] && DigitValue(sep) >= b
    ensures Values(Numerals(vs, b), b) == vs && Clean(Numerals(vs, b), sep)
    decreases |vs|
  {
    NumeralValue(vs[0], b);
    if |vs| == 1 {
      assert vs == [vs[0]];
    } else {
      NumeralsValues(vs[1..], b, sep);
      assert [vs[0]] + vs[1..] == vs;
    }
  }

  /** Byte i of an IPv4 address, and 16-bit group i of an IPv6 one, both counted from the low end. */
  function ByteOf(h: uint32, i: nat): nat
    requires i < 4
  {
    h / (if i == 0 then 1 else if i == 1 then 0x100 else if i == 2 then 0x1_0000 else 0x100_0000) % 256
  }

  function Quad(ip: Ip, k: nat): uint32
    requires k < 4
  {
    if k == 0 then ip.q0 else if k == 1 then ip.q1 else if k == 2 then ip.q2 else ip.q3
  }

  function GroupOf(ip: Ip, i: nat): nat
    requires i < 8
  {
    Quad(ip, i * 2 / 4) / (if i % 2 == 0 then 1 else 0x1_0000) % 0x1_0000
  }

  function Bytes(h: uint32): seq<nat> {
    [ByteOf(h, 3), ByteOf(h, 2), ByteOf(h, 1), ByteOf(h, 0)]
  }

  function Groups(ip: Ip): seq<nat> {
    [GroupOf(ip, 7), GroupOf(ip, 6), GroupOf(ip, 5), GroupOf(ip, 4),
     GroupOf(ip, 3), GroupOf(ip, 2), GroupOf(ip, 1), GroupOf(ip, 0)]
  }

  function Text(ip: Ip): string {
    if ip.IsV4() then Join(Numerals(Bytes(ip.GetV4()), 10), '.') else Join(Numerals(Groups(ip), 16), ':')
  }

  method ToString(ip: Ip) returns (ss: string)
    ensures ss == Text(ip)
  {
    if ip.IsV4() {
      ss := PrintV4(ip.GetV4());
    } else {
      ss := PrintV6(ip);
    }
  }

  method PrintV4(h: uint32) returns (ss: string)
    ensures ss == Join(Numerals(Bytes(h), 10), '.')
  {
    hide Join, Numerals, Numeral, ByteOf;
    ss := "";
    ghost var vs := Bytes(h);
    var i := 4;
    while true
      invariant 1 <= i <= 4
      invariant ss == if i == 4 then "" else Join(Numerals(vs[..4 - i], 10), '.') + "."
      decreases i
    {
      i := i - 1;
      ss := ss + Numeral(ByteOf(h, i), 10);
      PrintedOneMore(vs, 3 - i, 10, '.');
      if i == 0 {
        assert vs[..4] == vs;
        break;
      }
      ss := ss + ".";
    }
  }

  method PrintV6(ip: Ip) returns (ss: string)
    ensures ss == Join(Numerals(Groups(ip), 16), ':')
  {
    hide Join, Numerals, Numeral, GroupOf, Quad;
    ss := "";
    ghost var vs := Groups(ip);
    var i := 8;
    while true
      invariant 1 <= i <= 8
      invariant ss == if i == 8 then "" else Join(Numerals(vs[..8 - i], 16), ':') + ":"
      decreases i
    {
      i := i - 1;
      ss := ss + Numeral(GroupOf(ip, i), 16);
      PrintedOneMore(vs, 7 - i, 16, ':');
      if i == 0 {
        assert vs[..8] == vs;
        break;
      }
      ss := ss + ":";
    }
  }

  lemma PrintedOneMore(vs: seq<nat>, n: nat, b: Base, sep: char)
    requires n < |vs|
    ensures Join(Numerals(vs[..n + 1], b), sep) ==
            (if n == 0 then "" else Join(Numerals(vs[..n], b), sep) + [sep]) + Numeral(vs[n], b)
  {
    hide Numeral;
    if n == 0 {
      assert vs[..1] == [vs[0]];
    } else {
      NumeralsSnoc(vs[..n], vs[n], b, sep);
      assert vs[..n] + [vs[n]] == vs[..n + 1];
    }
  }

  lemma {:induction false} NumeralsSnoc(vs: seq<nat>, v: nat, b: Base, sep: char)
    requires vs != []
    ensures Join(Numerals(vs + [v], b), sep) == Join(Numerals(vs, b), sep) + [sep] + Numeral(v, b)
    decreases |vs|
  {
    var ws := vs + [v];
    assert ws[1..] == vs[1..] + [v];
    if |vs| == 1 {
      assert Numerals(ws[1..], b) == Last(Numeral(v, b));
    } else {
      NumeralsSnoc(vs[1..], v, b, sep);
      var t := Join(Numerals(vs[1..], b), sep);
      var first := Numeral(vs[0], b) + [sep];
      assert first + (t + [sep] + Numeral(v, b)) == first + t + [sep] + Numeral(v, b);
    }
  }

  // ---------- reading back ----------

  /** Four numbers as an IPv4 address, most significant first. */
  function FromBytes(vs: seq<nat>): Option<uint32> {
    if |vs| == 4 && (forall i :: 0 <= i < 4 ==> vs[i] < 256)
    then Some(((vs[0] * 256 + vs[1]) * 256 + vs[2]) * 256 + vs[3]) else None
  }

  function Pair(hi: nat, lo: nat): uint32
    requires hi < 0x1_0000 && lo < 0x1_0000
  {
    hi * 0x1_0000 + lo
  }

  /** Eight groups as an IPv6 address the way they are documented to be written: quad[0] first. */
  function FromGroups(vs: seq<nat>): Option<Ip> {
    if |vs| == 8 && (forall i :: 0 <= i < 8 ==> vs[i] < 0x1_0000)
    then Some(Ip(Pair(vs[0], vs[1]), Pair(vs[2], vs[3]), Pair(vs[4], vs[5]), Pair(vs[6], vs[7]))) else None
  }

  /** The digits, character by character: hexadecimal ones are lower-case. */
  lemma DigitsAre(v: nat)
    requires v < 16
    ensures Digit(v) == "0123456789abcdef"[v]
  {
  }

  /** A text, character by character. */
  lemma LiteralText()
    ensures Text(Ip(0, 0, 0xffff, 0x7f00_0001)) == "127.0.0.1"
  {
    hide Numeral;
    assert Bytes(0x7f00_0001) == [127, 0, 0, 1];
    FourNumerals(127, 0, 0, 1);
    SmallNumerals();
  }

  lemma SmallNumerals()
    ensures Numeral(127, 10) == "127" && Numeral(0, 10) == "0" && Numeral(1, 10) == "1"
  {
    assert Numeral(12, 10) == "12";
  }

  lemma FourNumerals(a: nat, b: nat, c: nat, d: nat)
    ensures Join(Numerals([a, b, c, d], 10), '.') ==
            Numeral(a, 10) + "." + Numeral(b, 10) + "." + Numeral(c, 10) + "." + Numeral(d, 10)
  {
    hide Numeral;
    PrintedOneMore([a, b, c, d], 0, 10, '.');
    PrintedOneMore([a, b, c, d], 1, 10, '.');
    PrintedOneMore([a, b, c, d], 2, 10, '.');
    PrintedOneMore([a, b, c, d], 3, 10, '.');
    assert [a, b, c, d][..4] == [a, b, c, d];
  }

  /** The address with its quads in the opposite order. */
  function Mirror(ip: Ip): Ip {
    Ip(ip.q3, ip.q2, ip.q1, ip.q0)
  }

  function ReadDotted(s: string): Option<uint32> {
    FromBytes(Values(Cut(s, '.'), 10))
  }

  function ReadGroups(s: string): Option<Ip> {
    FromGroups(Values(Cut(s, ':'), 16))
  }

  /** Dotted decimal reads back to the same IPv4 address; eight groups read back to the quads in the order they
      are printed, which is the reverse of the documented one. */
  lemma TextReadsBack(ip: Ip)
    ensures ip.IsV4() ==> ReadDotted(Text(ip)) == Some(ip.GetV4())
    ensures !ip.IsV4() ==> ReadGroups(Text(ip)) == Some(Mirror(ip))
  {
    if ip.IsV4() {
      NumeralsValues(Bytes(ip.GetV4()), 10, '.');
      CutJoin(Numerals(Bytes(ip.GetV4()), 10), '.');
      BytesBack(ip.GetV4());
    } else {
      NumeralsValues(Groups(ip), 16, ':');
      CutJoin(Numerals(Groups(ip), 16), ':');
      GroupsBack(ip);
    }
  }

  /** The text of an IPv6 address means that address, read as documented, iff its quads are a palindrome. */
  lemma DocumentedOrderExactly(ip: Ip)
    ensures !ip.IsV4() ==> (ReadGroups(Text(ip)) == Some(ip) <==> ip.q0 == ip.q3 && ip.q1 == ip.q2)
  {
    hide Text, ReadGroups, ReadDotted;
    TextReadsBack(ip);
  }

  /** What a printed list of numbers is made of. */
  lemma {:induction false} PrintedChars(vs: seq<nat>, b: Base, sep: char)
    requires vs != []
    ensures forall c :: c in Join(Numerals(vs, b), sep) ==> c == sep || DigitValue(c) < b
    ensures |vs| > 1 ==> sep in Join(Numerals(vs, b), sep)
    decreases |vs|
  {
    hide DigitValue, Numeral;
    if |vs| <= 1 {
    } else {
      PrintedChars(vs[1..], b, sep);
      var w, t := Numeral(vs[0], b), Join(Numerals(vs[1..], b), sep);
      assert Join(Numerals(vs, b), sep) == w + [sep] + t;
      assert sep in [sep];
    }
  }

  lemma {:induction false} PrintedLength(vs: seq<nat>, b: Base, sep: char, k: nat)
    requires vs != [] && 1 <= k && forall i :: 0 <= i < |vs| ==> vs[i] < Pow(b, k)
    ensures |vs| <= |Join(Numerals(vs, b), sep)| < |vs| * (k + 1)
    decreases |vs|
  {
    hide Numeral, Pow;
    NumeralLength(vs[0], b, k);
    if |vs| <= 1 {
    } else {
      PrintedLength(vs[1..], b, sep, k);
    }
  }

  lemma DottedText(h: uint32)
    ensures var t := Text(V4(h));
            '.' in t && ':' !in t && t[0] != '[' && |t| <= DOTTED && t == Join(Numerals(Bytes(h), 10), '.')
  {
    var t, vs := Text(V4(h)), Bytes(h);
    PrintedChars(vs, 10, '.');
    assert forall c :: c in t ==> c == '.' || DigitValue(c) < 10;
    assert Pow(10, 3) == 1000;
    PrintedLength(vs, 10, '.', 3);
    assert t[0] in t;
  }

  lemma GroupsText(ip: Ip)
    requires !ip.IsV4()
    ensures var t := Text(ip);
            && '.' !in t && ']' !in t && t != "" && t[0] != '[' && |t| <= BRACKETED
            && t == Join(Numerals(Groups(ip), 16), ':')
  {
    var t, vs := Text(ip), Groups(ip);
    PrintedChars(vs, 16, ':');
    assert forall c :: c in t ==> c == ':' || DigitValue(c) < 16;
    assert Pow(16, 3) == 4096 && Pow(16, 4) == 0x1_0000;
    PrintedLength(vs, 16, ':', 4);
    assert t[0] in t;
  }

  /** No two addresses print alike. */
  lemma ToStringInjective(a: Ip, b: Ip)
    ensures Text(a) == Text(b) <==> a == b
  {
    hide Text, Join, ReadDotted, ReadGroups;
    KindShows(a);
    KindShows(b);
    TextReadsBack(a);
    TextReadsBack(b);
    assert a.IsV4() ==> a == V4(a.GetV4());
    assert b.IsV4() ==> b == V4(b.GetV4());
  }

  /** A printed address is recognised as what it is, with or without a port behind it. */
  lemma KindShows(ip: Ip)
    ensures IsV4Text(Text(ip)) <==> ip.IsV4()
  {
    hide Text, Join, Numerals;
    if ip.IsV4() {
      DottedText(ip.GetV4());
      assert ip == V4(ip.GetV4());
      DotFirst(Text(ip), "");
    } else {
      GroupsText(ip);
    }
  }

  lemma DotFirst(t: string, rest: string)
    requires '.' in t && ':' !in t
    ensures IsV4Text(t + rest) && IsV4Text(t)
  {
    var i :| 0 <= i < |t| && t[i] == '.';
    assert (t + rest)[i] == '.' && (t + rest)[..i] == t[..i];
    assert forall c :: c in t[..i] ==> c in t;
  }

  // ---------- the whole way round ----------

  /** The host readers agree with the standard on the forms to_string prints. */
  ghost predicate Standard4(pton4: Reader<uint32>) {
    forall vs :: FromBytes(vs).Some? ==> vs != [] && pton4(Join(Numerals(vs, 10), '.')) == FromBytes(vs)
  }

  ghost predicate Standard6(pton6: Reader<Ip>) {
    forall vs :: FromGroups(vs).Some? ==> vs != [] && pton6(Join(Numerals(vs, 16), ':')) == FromGroups(vs)
  }

  /** Such readers exist. */
  lemma ReferenceReaders()
    ensures Standard4(ReadDotted) && Standard6(ReadGroups)
  {
    hide FromBytes, FromGroups, Join, Numerals, Values, Cut;
    forall vs | FromBytes(vs).Some?
      ensures vs != [] && ReadDotted(Join(Numerals(vs, 10), '.')) == FromBytes(vs)
    {
      FourOrEight(vs);
      NumeralsValues(vs, 10, '.');
      CutJoin(Numerals(vs, 10), '.');
    }
    forall vs | FromGroups(vs).Some?
      ensures vs != [] && ReadGroups(Join(Numerals(vs, 16), ':')) == FromGroups(vs)
    {
      FourOrEight(vs);
      NumeralsValues(vs, 16, ':');
      CutJoin(Numerals(vs, 16), ':');
    }
  }

  lemma FourOrEight(vs: seq<nat>)
    ensures FromBytes(vs).Some? || FromGroups(vs).Some? ==> vs != []
  {
  }

  /** An IPv4 address and port, printed, read back; without the port it is accepted all the same, with port 0. */
  lemma V4ReadsBack(h: uint32, p: uint16, pton4: Reader<uint32>, pton6: Reader<Ip>)
    requires Standard4(pton4)
    ensures AddressOf(Text(V4(h)) + (":" + Numeral(p, 10)), pton4, pton6) == Some(Address(V4(h), p))
    ensures AddressOf(Text(V4(h)), pton4, pton6) == Some(Address(V4(h), 0))
  {
    hide Text, Numeral, Join, Numerals, FromBytes, Bytes, DOTTED, BRACKETED;
    DottedText(h);
    BytesBack(h);
    var t, q := Text(V4(h)), ":" + Numeral(p, 10);
    DotFirst(t, q);
    assert (t + q)[..|t|] == t && (t + q)[|t|..] == q && t[..|t|] == t && t[|t|..] == "";
    UptoIs(t + q, ':', |t|);
    UptoIs(t, ':', |t|);
    assert q[1..] == Numeral(p, 10) + "";
    PortReadsBack(q, p, "");
  }

  lemma Bracketed(s: string, t: string, q: string, pton4: Reader<uint32>, pton6: Reader<Ip>)
    requires s != "" && s[0] == '[' && s[1..] == t + q && q != "" && q[0] == ']'
    requires ']' !in t && |t| <= BRACKETED
    ensures AddressOf(s, pton4, pton6) == WithPort(pton6(t), PortOf(q[1..]))
  {
    hide PortOf, WithPort, IsV4Text, MappedV4;
    UptoIs(t + q, ']', |t|);
    assert s[1..|t| + 1] == t && s[|t| + 2..] == q[1..];
  }

  /** Which texts have which host and what follows it, form by form, with the room of the source's buffers. A bracket
      that is not closed, and the empty text, are refused. */
  lemma FormsExactly(t: string, rest: string, pton4: Reader<uint32>, pton6: Reader<Ip>)
    ensures ']' !in t ==>
              AddressOf("[" + t + "]" + rest, pton4, pton6) ==
              if |t| <= 45 then WithPort(pton6(t), PortOf(rest)) else None
    ensures ']' !in t ==> AddressOf("[" + t, pton4, pton6) == None
    ensures '.' in t && ':' !in t && t[0] != '[' && (rest == "" || rest[0] == ':') ==>
              AddressOf(t + rest, pton4, pton6) ==
              if |t| <= 15 then WithPort(MappedV4(pton4(t)), PortOf(rest)) else None
    ensures AddressOf("", pton4, pton6) == None
  {
    hide PortOf, MappedV4;
    if ']' !in t {
      BracketedForm(t, rest, pton4, pton6);
    }
    if '.' in t && ':' !in t && t[0] != '[' && (rest == "" || rest[0] == ':') {
      DottedForm(t, rest, pton4, pton6);
    }
  }

  lemma BracketedForm(t: string, rest: string, pton4: Reader<uint32>, pton6: Reader<Ip>)
    requires ']' !in t
    ensures AddressOf("[" + t + "]" + rest, pton4, pton6) ==
            if |t| <= 45 then WithPort(pton6(t), PortOf(rest)) else None
    ensures AddressOf("[" + t, pton4, pton6) == None
  {
    hide PortOf, IsV4Text, MappedV4;
    var q := "]" + rest;
    var s := "[" + t + "]" + rest;
    assert s[1..] == t + q;
    UptoIs(t + q, ']', |t|);
    assert (t + q)[..|t|] == t && s[1..|t| + 1] == t && s[|t| + 2..] == rest;
    assert ("[" + t)[1..] == t && t[..|t|] == t;
    UptoIs(t, ']', |t|);
  }

  lemma DottedForm(t: string, rest: string, pton4: Reader<uint32>, pton6: Reader<Ip>)
    requires '.' in t && ':' !in t && t[0] != '[' && (rest == "" || rest[0] == ':')
    ensures AddressOf(t + rest, pton4, pton6) ==
            if |t| <= 15 then WithPort(MappedV4(pton4(t)), PortOf(rest)) else None
  {
    hide PortOf, IsV4Text, MappedV4;
    DotFirst(t, rest);
    assert (t + rest)[..|t|] == t && (t + rest)[|t|..] == rest;
    UptoIs(t + rest, ':', |t|);
  }

  /** Text after the host that does not start with a colon is refused, whatever the host, as in "[::1]8080". */
  lemma StrayTextRefused(t: string, rest: string, pton4: Reader<uint32>, pton6: Reader<Ip>)
    requires ']' !in t && rest != "" && rest[0] != ':'
    ensures AddressOf("[" + t + "]" + rest, pton4, pton6) == None
  {
    hide AddressOf, Value;
    PortAcceptedNever(rest);
    FormsExactly(t, rest, pton4, pton6);
  }

  lemma PortAcceptedNever(s: string)
    requires s != "" && s[0] != ':'
    ensures PortOf(s) == None
  {
    hide PortOf;
    if PortOf(s).Some? {
      PortAcceptedExactly(s, PortOf(s).value);
    }
  }

  lemma Bare(t: string, pton4: Reader<uint32>, pton6: Reader<Ip>)
    requires t != "" && t[0] != '[' && !IsV4Text(t)
    ensures AddressOf(t, pton4, pton6) == WithPort(pton6(t), Some(0))
  {
    hide IsV4Text;
  }

  /** An IPv6 address and port, printed, read back with the quads reversed. */
  lemma V6ReadsBack(ip: Ip, p: uint16, pton4: Reader<uint32>, pton6: Reader<Ip>)
    requires !ip.IsV4() && Standard6(pton6)
    ensures AddressOf("[" + Text(ip) + ("]:" + Numeral(p, 10)), pton4, pton6) == Some(Address(Mirror(ip), p))
    ensures AddressOf(Text(ip), pton4, pton6) == Some(Address(Mirror(ip), 0))
  {
    hide Text, Numeral, Join, Numerals, FromGroups, Groups, Mirror, PortOf, IsV4Text, BRACKETED, AddressOf;
    GroupsText(ip);
    GroupsBack(ip);
    var t, q := Text(ip), "]:" + Numeral(p, 10);
    var s := "[" + t + q;
    assert s[1..] == t + q;
    Bracketed(s, t, q, pton4, pton6);
    assert q[1..][1..] == Numeral(p, 10) + "";
    PortReadsBack(q[1..], p, "");
    KindShows(ip);
    Bare(t, pton4, pton6);
  }

  lemma BytesBack(h: uint32)
    ensures FromBytes(Bytes(h)) == Some(h)
  {
    var q1, q2, q3 := h / 0x100, h / 0x1_0000, h / 0x100_0000;
    TwoBytes(h);
    ThreeBytes(h);
    assert h == q1 * 256 + h % 256 && q1 == q2 * 256 + q1 % 256 && q2 == q3 * 256 + q2 % 256;
    assert q3 % 256 == q3;
  }

  lemma TwoBytes(h: uint32)
    ensures h / 0x1_0000 == h / 0x100 / 256
  {
  }

  lemma ThreeBytes(h: uint32)
    ensures h / 0x100_0000 == h / 0x1_0000 / 256
  {
  }

  lemma QuadBack(q: uint32)
    ensures Pair(q / 0x1_0000 % 0x1_0000, q % 0x1_0000) == q
  {
  }

  lemma GroupsBack(ip: Ip)
    ensures FromGroups(Groups(ip)) == Some(Mirror(ip))
  {
    hide Pair;
    QuadBack(ip.q0);
    QuadBack(ip.q1);
    QuadBack(ip.q2);
    QuadBack(ip.q3);
  }
}

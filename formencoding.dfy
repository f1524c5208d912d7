/** The `application/x-www-form-urlencoded` byte serializer of the WHATWG URL Standard,
    which `URLSearchParams.prototype.toString` applies to every name and value: ASCII
    letters, digits and `*-._` stay as they are, a space becomes `+`, and every other
    code point becomes its UTF-8 bytes, each written `%XY` in upper-case hex. A reader
    that takes the encoding back shows that nothing is lost. */
module FormEncoding {
  import opened Base

  predicate Unreserved(c: char) {
    ('A' <= c <= 'Z') || ('a' <= c <= 'z') || ('0' <= c <= '9') || c == '*' || c == '-' || c == '.' || c == '_'
  }

  predicate IsByte(b: nat) {
    b < 256
  }

  /** The UTF-8 encoding of one code point. */
  function Utf8(c: char): (bs: seq<nat>)
    ensures 1 <= |bs| <= 4
    ensures forall i :: 0 <= i < |bs| ==> IsByte(bs[i])
  {
    var n := c as int;
    if n < 0x80 then [n]
    else if n < 0x800 then [0xC0 + n / 0x40, 0x80 + n % 0x40]
    else if n < 0x1_0000 then [0xE0 + n / 0x1000, 0x80 + n / 0x40 % 0x40, 0x80 + n % 0x40]
    else [0xF0 + n / 0x4_0000, 0x80 + n / 0x1000 % 0x40, 0x80 + n / 0x40 % 0x40, 0x80 + n % 0x40]
  }

  /** The number of bytes a sequence has, read from its first byte; 0 for a byte that
      cannot start one. */
  function SequenceLength(lead: nat): nat {
    if lead < 0x80 then 1
    else if 0xC0 <= lead < 0xE0 then 2
    else if 0xE0 <= lead < 0xF0 then 3
    else if 0xF0 <= lead < 0xF8 then 4
    else 0
  }

  predicate Continuation(b: nat) {
    0x80 <= b < 0xC0
  }

  predicate IsScalar(n: int) {
    (0 <= n < 0xD800) || (0xE000 <= n < 0x11_0000)
  }

  /** Reads one code point back from its UTF-8 bytes. */
  function Utf8Decode(bs: seq<nat>): Option<char> {
    if |bs| == 0 || SequenceLength(bs[0]) != |bs| then None
    else if |bs| == 1 then Some(bs[0] as char)
    else if !(forall i :: 1 <= i < |bs| ==> Continuation(bs[i])) then None
    else
      var n :=
        if |bs| == 2 then (bs[0] - 0xC0) * 0x40 + (bs[1] - 0x80)
        else if |bs| == 3 then (bs[0] - 0xE0) * 0x1000 + (bs[1] - 0x80) * 0x40 + (bs[2] - 0x80)
        else (bs[0] - 0xF0) * 0x4_0000 + (bs[1] - 0x80) * 0x1000 + (bs[2] - 0x80) * 0x40 + (bs[3] - 0x80);
      if IsScalar(n) then Some(n as char) else None
  }

  lemma Utf8RoundTrip(c: char)
    ensures SequenceLength(Utf8(c)[0]) == |Utf8(c)|
    ensures Utf8Decode(Utf8(c)) == Some(c)
  {
    var n := c as int;
    if n < 0x80 {
    } else if n < 0x800 {
      Utf8Two(c);
    } else if n < 0x1_0000 {
      Utf8Three(c);
    } else {
      Utf8Four(c);
    }
  }

  lemma Utf8Two(c: char)
    requires 0x80 <= c as int < 0x800
    ensures SequenceLength(Utf8(c)[0]) == |Utf8(c)| == 2
    ensures Utf8Decode(Utf8(c)) == Some(c)
  {
    var n := c as int;
    assert (n / 0x40) * 0x40 + n % 0x40 == n;
  }

  lemma Utf8Three(c: char)
    requires 0x800 <= c as int < 0x1_0000
    ensures SequenceLength(Utf8(c)[0]) == |Utf8(c)| == 3
    ensures Utf8Decode(Utf8(c)) == Some(c)
  {
    var n := c as int;
    var q := n / 0x40;
    assert q * 0x40 + n % 0x40 == n;
    assert (q / 0x40) * 0x40 + q % 0x40 == q;
    assert q / 0x40 == n / 0x1000;
  }

  lemma Utf8Four(c: char)
    requires 0x1_0000 <= c as int
    ensures SequenceLength(Utf8(c)[0]) == |Utf8(c)| == 4
    ensures Utf8Decode(Utf8(c)) == Some(c)
  {
    var n := c as int;
    var q := n / 0x40;
    var r := q / 0x40;
    assert q * 0x40 + n % 0x40 == n;
    assert r * 0x40 + q % 0x40 == q;
    assert (r / 0x40) * 0x40 + r % 0x40 == r;
    assert r == n / 0x1000;
    assert r / 0x40 == n / 0x4_0000;
  }

  predicate IsHexDigit(c: char) {
    ('0' <= c <= '9') || ('A' <= c <= 'F')
  }

  function HexValue(c: char): Option<nat> {
    if '0' <= c <= '9' then Some(c as int - '0' as int)
    else if 'A' <= c <= 'F' then Some(c as int - 'A' as int + 10)
    else None
  }

  /** An upper-case hex digit; reading it back gives its value. */
  function HexDigit(d: nat): (c: char)
    requires d < 16
    ensures IsHexDigit(c) && HexValue(c) == Some(d)
  {
    if d < 10 then ('0' as int + d) as char else ('A' as int + d - 10) as char
  }

  /** `%XY` for one byte. */
  function PercentByte(b: nat): (r: string)
    requires IsByte(b)
    ensures |r| == 3 && r[0] == '%' && IsHexDigit(r[1]) && IsHexDigit(r[2])
  {
    ['%', HexDigit(b / 16), HexDigit(b % 16)]
  }

  /** `%XY` for every byte. */
  function Percent(bs: seq<nat>): (r: string)
    requires forall i :: 0 <= i < |bs| ==> IsByte(bs[i])
    ensures |r| == 3 * |bs|
    decreases |bs|
  {
    if bs == [] then [] else PercentByte(bs[0]) + Percent(bs[1..])
  }

  function EncodeChar(c: char): string {
    if Unreserved(c) then [c]
    else if c == ' ' then "+"
    else Percent(Utf8(c))
  }

  /** The serializer applied to a whole string. */
  function Encode(s: string): (r: string)
    ensures '&' !in r && '=' !in r
    decreases |s|
  {
    if s == [] then []
    else
      var e := EncodeChar(s[0]);
      EncodeCharSafe(s[0]);
      e + Encode(s[1..])
  }

  /** An encoded character holds no `&` or `=`, so names and values can be told apart. */
  lemma EncodeCharSafe(c: char)
    ensures '&' !in EncodeChar(c) && '=' !in EncodeChar(c)
  {
    if !Unreserved(c) && c != ' ' {
      PercentSafe(Utf8(c));
    }
  }

  lemma {:induction false} PercentSafe(bs: seq<nat>)
    requires forall i :: 0 <= i < |bs| ==> IsByte(bs[i])
    ensures forall k :: 0 <= k < |Percent(bs)| ==> Percent(bs)[k] == '%' || IsHexDigit(Percent(bs)[k])
    decreases |bs|
  {
    if bs != [] {
      PercentSafe(bs[1..]);
      var head := PercentByte(bs[0]);
      assert Percent(bs) == head + Percent(bs[1..]);
      assert forall k :: 0 <= k < 3 ==> head[k] == '%' || IsHexDigit(head[k]);
    }
  }

  // ---------------------------------------------------------------- reading back

  /** Reads `k` bytes written `%XY` from the front of `e`. */
  function ReadBytes(e: string, k: nat): (r: Option<seq<nat>>)
    ensures r.Some? ==> |r.value| == k && 3 * k <= |e|
    decreases k
  {
    if k == 0 then Some([])
    else if |e| < 3 || e[0] != '%' then None
    else match (HexValue(e[1]), HexValue(e[2]))
      case (Some(hi), Some(lo)) =>
        (match ReadBytes(e[3..], k - 1)
          case Some(rest) => Some([hi * 16 + lo] + rest)
          case None => None)
      case _ => None
  }

  /** Reading `k + 1` bytes from `%XY` and a tail reads the byte, then `k` from the tail. */
  lemma ReadFront(b: nat, tail: string, k: nat)
    requires IsByte(b)
    ensures ReadBytes(PercentByte(b) + tail, k + 1)
         == (match ReadBytes(tail, k) case Some(r) => Some([b] + r) case None => None)
  {
    var e := PercentByte(b) + tail;
    assert e[0] == '%' && e[1] == HexDigit(b / 16) && e[2] == HexDigit(b % 16);
    assert e[3..] == tail;
  }

  lemma {:induction false} ReadPercent(bs: seq<nat>, rest: string)
    requires forall i :: 0 <= i < |bs| ==> IsByte(bs[i])
    ensures ReadBytes(Percent(bs) + rest, |bs|) == Some(bs)
    decreases |bs|
  {
    if bs != [] {
      assert Percent(bs) + rest == PercentByte(bs[0]) + (Percent(bs[1..]) + rest);
      ReadPercent(bs[1..], rest);
      ReadFront(bs[0], Percent(bs[1..]) + rest, |bs| - 1);
      assert bs == [bs[0]] + bs[1..];
    }
  }

  /** Reads one encoded character from the front of `e`, with the number of code units
      it took. */
  function DecodeFirst(e: string): (r: Option<(char, nat)>)
    requires e != []
    ensures r.Some? ==> 1 <= r.value.1 <= |e|
  {
    if e[0] == '+' then Some((' ', 1))
    else if e[0] != '%' then Some((e[0], 1))
    else
      match ReadBytes(e, 1)
      case None => None
      case Some(lead) =>
        var k := SequenceLength(lead[0]);
        if k == 0 then None
        else match ReadBytes(e, k)
          case None => None
          case Some(bs) =>
            match Utf8Decode(bs)
            case None => None
            case Some(c) => Some((c, 3 * k))
  }

  /** Reads a whole encoded string back, refusing anything the serializer cannot write. */
  function Decode(e: string): Option<string>
    decreases |e|
  {
    if e == [] then Some([])
    else match DecodeFirst(e)
      case None => None
      case Some((c, n)) =>
        match Decode(e[n..])
        case None => None
        case Some(s) => Some([c] + s)
  }

  lemma DecodeFirstEncodeChar(c: char, rest: string)
    ensures DecodeFirst(EncodeChar(c) + rest) == Some((c, |EncodeChar(c)|))
  {
    if !Unreserved(c) && c != ' ' {
      DecodeFirstPercent(c, rest);
    }
  }

  lemma DecodeFirstPercent(c: char, rest: string)
    requires !Unreserved(c) && c != ' '
    ensures DecodeFirst(Percent(Utf8(c)) + rest) == Some((c, |Percent(Utf8(c))|))
  {
    var bs := Utf8(c);
    var e := Percent(bs) + rest;
    Utf8RoundTrip(c);
    ReadPercent(bs, rest);
    ReadLead(bs, rest);
    ReadThenDecode(e, bs, c);
  }

  /** The first `%XY` of an encoded character reads as its lead byte. */
  lemma ReadLead(bs: seq<nat>, rest: string)
    requires bs != [] && forall i :: 0 <= i < |bs| ==> IsByte(bs[i])
    ensures Percent(bs) + rest != [] && (Percent(bs) + rest)[0] == '%'
    ensures ReadBytes(Percent(bs) + rest, 1) == Some([bs[0]])
  {
    var tail := Percent(bs[1..]) + rest;
    assert Percent(bs) + rest == PercentByte(bs[0]) + tail;
    ReadFront(bs[0], tail, 0);
    assert [bs[0]] + [] == [bs[0]];
  }

  /** The last steps of `DecodeFirst` on a `%` once the lead byte and all bytes are read. */
  lemma ReadThenDecode(e: string, bs: seq<nat>, c: char)
    requires e != [] && e[0] == '%' && bs != []
    requires ReadBytes(e, 1) == Some([bs[0]])
    requires SequenceLength(bs[0]) == |bs|
    requires ReadBytes(e, |bs|) == Some(bs)
    requires Utf8Decode(bs) == Some(c)
    ensures DecodeFirst(e) == Some((c, 3 * |bs|))
  {
  }

  /** Reading back what the serializer writes gives the original string. */
  lemma {:induction false} DecodeEncode(s: string)
    ensures Decode(Encode(s)) == Some(s)
    decreases |s|
  {
    if s != [] {
      var e := EncodeChar(s[0]);
      var rest := Encode(s[1..]);
      assert Encode(s) == e + rest;
      DecodeFirstEncodeChar(s[0], rest);
      assert (e + rest)[|e|..] == rest;
      DecodeEncode(s[1..]);
      DecodeCons(e + rest, s[0], |e|, s[1..]);
      assert s == [s[0]] + s[1..];
    }
  }

  /** One decoding step: the first character, then the rest. */
  lemma DecodeCons(e: string, c: char, n: nat, s: string)
    requires e != [] && DecodeFirst(e) == Some((c, n)) && n <= |e| && Decode(e[n..]) == Some(s)
    ensures Decode(e) == Some([c] + s)
  {
  }

  /** Hence different strings are encoded differently. */
  lemma EncodeInjective(s: string, t: string)
    requires Encode(s) == Encode(t)
    ensures s == t
  {
    DecodeEncode(s);
    DecodeEncode(t);
  }
}

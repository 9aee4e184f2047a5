/** parseCookies: the Cookie header parser, with the percent codec it relies on.
    Strings are sequences of Unicode scalar values. */
module Cookies {
  import opened Base

  // ----- decodeURIComponent and its inverse (ECMA-262 ES2022, section 19.2.6) -----

  function HexDigit(n: nat): char
    requires n < 16
  {
    if n < 10 then (48 + n) as char else (55 + n) as char
  }

  function HexValue(c: char): (v: Option<nat>)
    ensures v.Some? ==> v.value < 16
  {
    if '0' <= c <= '9' then Some(c as int - 48)
    else if 'A' <= c <= 'F' then Some(c as int - 55)
    else if 'a' <= c <= 'f' then Some(c as int - 87)
    else None
  }

  /** The octet written by an escape at the start of `s`. */
  function Octet(s: string): (b: Option<nat>)
    ensures b.Some? ==> b.value < 256 && |s| >= 3
  {
    if |s| < 3 || s[0] != '%' || HexValue(s[1]).None? || HexValue(s[2]).None? then None
    else Some(HexValue(s[1]).value * 16 + HexValue(s[2]).value)
  }

  /** A continuation octet's six bits. */
  function Continuation(s: string): (b: Option<nat>)
    ensures b.Some? ==> b.value < 64 && |s| >= 3
  {
    match Octet(s)
    case Some(b) => if 0x80 <= b < 0xC0 then Some(b - 0x80) else None
    case None => None
  }

  datatype Decoded = Decoded(c: char, length: nat)

  predicate Scalar(n: int) { 0 <= n < 0xD800 || 0xE000 <= n < 0x11_0000 }

  function ToChar(n: int, least: int): Option<char> {
    if n >= least && Scalar(n) then Some(n as char) else None
  }

  /** The scalar value of a lead octet and continuation bits; overlong forms, surrogates and values
      past U+10FFFF are malformed. */
  function Two(lead: nat, x: nat): Option<char> { ToChar((lead - 0xC0) * 64 + x, 0x80) }

  function Three(lead: nat, x: nat, y: nat): Option<char> { ToChar((lead - 0xE0) * 4096 + x * 64 + y, 0x800) }

  function Four(lead: nat, x: nat, y: nat, z: nat): Option<char> {
    ToChar((lead - 0xF0) * 262_144 + x * 4096 + y * 64 + z, 0x1_0000)
  }

  function WithLength(c: Option<char>, length: nat): (d: Option<Decoded>)
    ensures d.Some? ==> d.value.length == length
  {
    match c case Some(ch) => Some(Decoded(ch, length)) case None => None
  }

  /** Two, three or four escapes holding the UTF-8 form of one scalar value. */
  function Multi(s: string, lead: nat): (d: Option<Decoded>)
    requires |s| >= 3
    ensures d.Some? ==> 0 < d.value.length <= |s|
  {
    match Continuation(s[3..])
    case None => None
    case Some(x) =>
      if lead < 0xC0 || lead >= 0xF8 then None
      else if lead < 0xE0 then WithLength(Two(lead, x), 6)
      else
        match Continuation(s[6..])
        case None => None
        case Some(y) =>
          if lead < 0xF0 then WithLength(Three(lead, x, y), 9)
          else
            match Continuation(s[9..])
            case None => None
            case Some(z) => WithLength(Four(lead, x, y, z), 12)
  }

  function DecodeFirst(s: string): (d: Option<Decoded>)
    requires s != []
    ensures d.Some? ==> 0 < d.value.length <= |s|
  {
    if s[0] != '%' then Some(Decoded(s[0], 1))
    else
      match Octet(s)
      case None => None
      case Some(b) => if b < 0x80 then Some(Decoded(b as char, 3)) else Multi(s, b)
  }

  /** decodeURIComponent; None where it throws. */
  function Decode(s: string): Option<string>
    decreases |s|
  {
    if s == [] then Some([])
    else
      match DecodeFirst(s)
      case None => None
      case Some(d) =>
        match Decode(s[d.length..])
        case None => None
        case Some(rest) => Some([d.c] + rest)
  }

  predicate Unreserved(c: char) {
    'A' <= c <= 'Z' || 'a' <= c <= 'z' || '0' <= c <= '9'
    || c in {'-', '_', '.', '!', '~', '*', '\'', '(', ')'}
  }

  function Escape(b: nat): string
    requires b < 256
  {
    ['%', HexDigit(b / 16), HexDigit(b % 16)]
  }

  /** The UTF-8 octets of a scalar value. */
  function Octets(n: nat): (bs: seq<nat>)
    requires n < 0x11_0000
    ensures 1 <= |bs| <= 4 && forall i :: 0 <= i < |bs| ==> bs[i] < 256
  {
    if n < 0x80 then [n]
    else if n < 0x800 then [0xC0 + n / 64, 0x80 + n % 64]
    else if n < 0x1_0000 then [0xE0 + n / 4096, 0x80 + n / 64 % 64, 0x80 + n % 64]
    else [0xF0 + n / 262_144, 0x80 + n / 4096 % 64, 0x80 + n / 64 % 64, 0x80 + n % 64]
  }

  /** The escapes of octets `i` and on. */
  function EscapeFrom(bs: seq<nat>, i: nat): (s: string)
    requires i <= |bs| && forall k :: 0 <= k < |bs| ==> bs[k] < 256
    ensures |s| == 3 * (|bs| - i)
    decreases |bs| - i
  {
    if i == |bs| then [] else Escape(bs[i]) + EscapeFrom(bs, i + 1)
  }

  function EscapeAll(bs: seq<nat>): (s: string)
    requires forall k :: 0 <= k < |bs| ==> bs[k] < 256
    ensures |s| == 3 * |bs|
  {
    EscapeFrom(bs, 0)
  }

  /** encodeURIComponent of one scalar value: itself, or its UTF-8 octets escaped. */
  function EncodeChar(c: char): (s: string)
    ensures s != []
  {
    if Unreserved(c) then [c] else EscapeAll(Octets(c as int))
  }

  function Encode(s: string): string {
    if s == [] then [] else EncodeChar(s[0]) + Encode(s[1..])
  }

  lemma HexRoundTrip(n: nat)
    requires n < 16
    ensures HexValue(HexDigit(n)) == Some(n)
    ensures Unreserved(HexDigit(n))
  {
  }

  lemma OctetOfEscape(b: nat, rest: string)
    requires b < 256
    ensures Octet(Escape(b) + rest) == Some(b)
    ensures (Escape(b) + rest)[3..] == rest
    ensures |Escape(b) + rest| >= 3 && (Escape(b) + rest)[0] == '%'
  {
    HexRoundTrip(b / 16);
    HexRoundTrip(b % 16);
  }

  /** Reading octet `i` out of the escapes of `bs`, and what follows it. */
  lemma EscapedOctet(bs: seq<nat>, i: nat, rest: string)
    requires i < |bs| && forall k :: 0 <= k < |bs| ==> bs[k] < 256
    ensures var s := EscapeFrom(bs, i) + rest;
            |s| >= 3 && s[0] == '%' && Octet(s) == Some(bs[i]) && s[3..] == EscapeFrom(bs, i + 1) + rest
  {
    OctetOfEscape(bs[i], EscapeFrom(bs, i + 1) + rest);
    assert EscapeFrom(bs, i) + rest == Escape(bs[i]) + (EscapeFrom(bs, i + 1) + rest);
  }

  lemma MultiByLead(s: string, lead: nat)
    requires |s| >= 3 && s[0] == '%' && Octet(s) == Some(lead) && 0xC0 <= lead < 0xF8
    requires Continuation(s[3..]).Some?
    requires lead >= 0xE0 ==> Continuation(s[6..]).Some?
    requires lead >= 0xF0 ==> Continuation(s[9..]).Some?
    ensures DecodeFirst(s) ==
            if lead < 0xE0 then WithLength(Two(lead, Continuation(s[3..]).value), 6)
            else if lead < 0xF0 then WithLength(Three(lead, Continuation(s[3..]).value, Continuation(s[6..]).value), 9)
            else WithLength(Four(lead, Continuation(s[3..]).value, Continuation(s[6..]).value, Continuation(s[9..]).value), 12)
  {
  }

  predicate Utf8(bs: seq<nat>) {
    2 <= |bs| <= 4
    && (if |bs| == 2 then 0xC0 <= bs[0] < 0xE0 else if |bs| == 3 then 0xE0 <= bs[0] < 0xF0 else 0xF0 <= bs[0] < 0xF8)
    && forall i :: 1 <= i < |bs| ==> 0x80 <= bs[i] < 0xC0
  }

  function Assemble(bs: seq<nat>): Option<char>
    requires Utf8(bs)
  {
    if |bs| == 2 then Two(bs[0], bs[1] - 0x80)
    else if |bs| == 3 then Three(bs[0], bs[1] - 0x80, bs[2] - 0x80)
    else Four(bs[0], bs[1] - 0x80, bs[2] - 0x80, bs[3] - 0x80)
  }

  lemma OctetsAfter(bs: seq<nat>, i: nat, rest: string)
    requires i <= |bs| && forall k :: 0 <= k < |bs| ==> bs[k] < 256
    ensures (EscapeAll(bs) + rest)[3 * i..] == EscapeFrom(bs, i) + rest
  {
    if i > 0 {
      OctetsAfter(bs, i - 1, rest);
      EscapedOctet(bs, i - 1, rest);
      var s := EscapeAll(bs) + rest;
      assert s[3 * (i - 1)..][3..] == s[3 * i..];
    }
  }

  lemma ContinuationAt(bs: seq<nat>, i: nat, rest: string)
    requires i < |bs| && (forall k :: 0 <= k < |bs| ==> bs[k] < 256) && 0x80 <= bs[i] < 0xC0
    ensures Continuation((EscapeAll(bs) + rest)[3 * i..]) == Some(bs[i] - 0x80)
  {
    OctetsAfter(bs, i, rest);
    EscapedOctet(bs, i, rest);
  }

  lemma DecodeOctets(bs: seq<nat>, rest: string)
    requires Utf8(bs)
    ensures DecodeFirst(EscapeAll(bs) + rest) == WithLength(Assemble(bs), 3 * |bs|)
  {
    EscapedOctet(bs, 0, rest);
    ContinuationAt(bs, 1, rest);
    if |bs| > 2 { ContinuationAt(bs, 2, rest); }
    if |bs| > 3 { ContinuationAt(bs, 3, rest); }
    MultiByLead(EscapeAll(bs) + rest, bs[0]);
  }

  /** The base-64 digits of a scalar value. */
  lemma Base64Digits(n: nat)
    requires n < 0x11_0000
    ensures n == n / 64 * 64 + n % 64
    ensures n == n / 4096 * 4096 + n / 64 % 64 * 64 + n % 64
    ensures n == n / 262_144 * 262_144 + n / 4096 % 64 * 4096 + n / 64 % 64 * 64 + n % 64
  {
  }

  lemma OctetsAreUtf8(n: nat)
    requires 0x80 <= n < 0x11_0000
    ensures Utf8(Octets(n))
    ensures |Octets(n)| == if n < 0x800 then 2 else if n < 0x1_0000 then 3 else 4
  {
  }

  lemma OctetsAssemble(n: nat)
    requires 0x80 <= n && Scalar(n)
    ensures Utf8(Octets(n)) && Assemble(Octets(n)) == Some(n as char)
  {
    OctetsAreUtf8(n);
    Base64Digits(n);
  }

  lemma DecodeEncodedChar(c: char, rest: string)
    ensures DecodeFirst(EncodeChar(c) + rest) == Some(Decoded(c, |EncodeChar(c)|))
  {
    var n := c as int;
    if !Unreserved(c) {
      if n < 0x80 {
        EscapedOctet([n], 0, rest);
      } else {
        OctetsAssemble(n);
        DecodeOctets(Octets(n), rest);
      }
    }
  }

  lemma DecodeStep(first: string, rest: string, c: char, tail: string)
    requires first != [] && DecodeFirst(first + rest) == Some(Decoded(c, |first|)) && Decode(rest) == Some(tail)
    ensures Decode(first + rest) == Some([c] + tail)
  {
    assert (first + rest)[|first|..] == rest;
  }

  /** Percent-decoding inverts percent-encoding, for every string. */
  lemma {:induction false} DecodeEncode(s: string)
    ensures Decode(Encode(s)) == Some(s)
  {
    if s == [] {
    } else {
      DecodeEncode(s[1..]);
      DecodeEncodedChar(s[0], Encode(s[1..]));
      DecodeStep(EncodeChar(s[0]), Encode(s[1..]), s[0], s[1..]);
      assert s == [s[0]] + s[1..];
    }
  }

  /** `p` spells one character: as itself, or as escapes of its UTF-8 octets, in digits of either case. */
  ghost predicate Spells(p: string, c: char) {
    || (p == [c] && c != '%')
    || (|p| == 3 * |Octets(c as int)|
        && forall i :: 0 <= i < |Octets(c as int)| ==> Octet(p[3 * i..]) == Some(Octets(c as int)[i]))
  }

  /** `s` spells `t`, character by character. */
  ghost predicate Writes(s: string, t: string)
    decreases |t|
  {
    if t == [] then s == []
    else exists k :: 0 < k <= |s| && Spells(s[..k], t[0]) && Writes(s[k..], t[1..])
  }

  lemma OctetHere(p: string, rest: string, i: nat)
    requires 3 * i + 3 <= |p|
    ensures (p + rest)[3 * i..] == p[3 * i..] + rest
    ensures Octet((p + rest)[3 * i..]) == Octet(p[3 * i..])
  {
    var a, b := (p + rest)[3 * i..], p[3 * i..];
    assert a == b + rest && |b| >= 3;
    assert a[0] == b[0] && a[1] == b[1] && a[2] == b[2];
  }

  lemma SpelledOctet(p: string, c: char, rest: string, i: nat)
    requires |p| == 3 * |Octets(c as int)| && i < |Octets(c as int)| && Octet(p[3 * i..]) == Some(Octets(c as int)[i])
    ensures Octet((p + rest)[3 * i..]) == Some(Octets(c as int)[i])
  {
    OctetHere(p, rest, i);
  }

  lemma SpelledMulti(p: string, c: char, rest: string)
    requires c as int >= 0x80 && |p| == 3 * |Octets(c as int)|
    requires forall i :: 0 <= i < |Octets(c as int)| ==> Octet(p[3 * i..]) == Some(Octets(c as int)[i])
    ensures DecodeFirst(p + rest) == Some(Decoded(c, |p|))
  {
    var s, bs := p + rest, Octets(c as int);
    OctetsAssemble(c as int);
    forall i | 0 <= i < |bs| ensures Octet(s[3 * i..]) == Some(bs[i]) { SpelledOctet(p, c, rest, i); }
    assert s[3 * 0..] == s;
    assert s[3..] == s[3 * 1..] && Continuation(s[3..]) == Some(bs[1] - 0x80);
    if |bs| > 2 { assert s[6..] == s[3 * 2..] && Continuation(s[6..]) == Some(bs[2] - 0x80); }
    if |bs| > 3 { assert s[9..] == s[3 * 3..] && Continuation(s[9..]) == Some(bs[3] - 0x80); }
    MultiByLead(s, bs[0]);
  }

  /** A spelled character is read back, whatever follows it. */
  lemma SpelledIsRead(p: string, c: char, rest: string)
    requires Spells(p, c) && p != []
    ensures DecodeFirst(p + rest) == Some(Decoded(c, |p|))
  {
    if !(p == [c] && c != '%') {
      if c as int >= 0x80 {
        SpelledMulti(p, c, rest);
      } else {
        assert Octet(p[3 * 0..]) == Some(Octets(c as int)[0]);
        SpelledOctet(p, c, rest, 0);
        assert (p + rest)[3 * 0..] == p + rest;
      }
    }
  }

  lemma TwoOctets(lead: nat, x: nat)
    requires 0xC0 <= lead < 0xE0 && x < 64 && Two(lead, x).Some?
    ensures Octets(Two(lead, x).value as int) == [lead, 0x80 + x]
  {
  }

  lemma ThreeOctets(lead: nat, x: nat, y: nat)
    requires 0xE0 <= lead < 0xF0 && x < 64 && y < 64 && Three(lead, x, y).Some?
    ensures Octets(Three(lead, x, y).value as int) == [lead, 0x80 + x, 0x80 + y]
  {
  }

  lemma LastDigit(high: nat, low: nat)
    requires low < 64
    ensures (high * 64 + low) / 64 == high && (high * 64 + low) % 64 == low
  {
  }

  lemma FourDigits(w: nat, x: nat, y: nat, z: nat)
    requires x < 64 && y < 64 && z < 64
    ensures var n := w * 262_144 + x * 4096 + y * 64 + z;
            n / 262_144 == w && n / 4096 % 64 == x && n / 64 % 64 == y && n % 64 == z
  {
    var n := w * 262_144 + x * 4096 + y * 64 + z;
    LastDigit(w * 4096 + x * 64 + y, z);
    LastDigit(w * 64 + x, y);
    LastDigit(w, x);
    assert n == (w * 4096 + x * 64 + y) * 64 + z;
    assert n / 64 == (w * 64 + x) * 64 + y;
    assert n / 4096 == n / 64 / 64 && n / 262_144 == n / 64 / 64 / 64;
  }

  lemma FourOctets(lead: nat, x: nat, y: nat, z: nat)
    requires 0xF0 <= lead < 0xF8 && x < 64 && y < 64 && z < 64 && Four(lead, x, y, z).Some?
    ensures Octets(Four(lead, x, y, z).value as int) == [lead, 0x80 + x, 0x80 + y, 0x80 + z]
  {
    FourDigits(lead - 0xF0, x, y, z);
  }

  /** What is read was spelled: overlong forms, stray continuation octets and surrogates are refused. */
  lemma ReadIsSpelled(s: string)
    requires s != [] && DecodeFirst(s).Some?
    ensures var d := DecodeFirst(s).value; d.length <= |s| && Spells(s[..d.length], d.c)
  {
    var d := DecodeFirst(s).value;
    if s[0] != '%' {
      assert s[..1] == [s[0]];
    } else {
      var b := Octet(s).value;
      if b >= 0x80 { MultiIsSpelled(s, b); }
      var bs, p := Octets(d.c as int), s[..d.length];
      forall i | 0 <= i < |bs| ensures Octet(p[3 * i..]) == Some(bs[i]) {
        OctetHere(p, s[d.length..], i);
        assert p + s[d.length..] == s;
      }
    }
  }

  lemma MultiIsSpelled(s: string, lead: nat)
    requires Octet(s) == Some(lead) && lead >= 0x80 && Multi(s, lead).Some?
    ensures var d := Multi(s, lead).value;
            var bs := Octets(d.c as int);
            d.length == 3 * |bs| <= |s| && forall i :: 0 <= i < |bs| ==> Octet(s[3 * i..]) == Some(bs[i])
  {
    var x := Continuation(s[3..]).value;
    assert s[3 * 0..] == s && s[3 * 1..] == s[3..];
    if lead < 0xE0 {
      TwoOctets(lead, x);
    } else {
      var y := Continuation(s[6..]).value;
      assert s[3 * 2..] == s[6..];
      if lead < 0xF0 {
        ThreeOctets(lead, x, y);
      } else {
        var z := Continuation(s[9..]).value;
        assert s[3 * 3..] == s[9..];
        FourOctets(lead, x, y, z);
      }
    }
  }

  lemma {:induction false} DecodedIsWritten(s: string, t: string)
    requires Decode(s) == Some(t)
    ensures Writes(s, t)
    decreases |s|
  {
    if s == [] {
    } else {
      var d := DecodeFirst(s).value;
      ReadIsSpelled(s);
      DecodedIsWritten(s[d.length..], t[1..]);
      assert Spells(s[..d.length], t[0]) && Writes(s[d.length..], t[1..]);
    }
  }

  lemma {:induction false} WrittenIsDecoded(s: string, t: string)
    requires Writes(s, t)
    ensures Decode(s) == Some(t)
    decreases |t|
  {
    if t == [] {
    } else {
      var k :| 0 < k <= |s| && Spells(s[..k], t[0]) && Writes(s[k..], t[1..]);
      SpelledIsRead(s[..k], t[0], s[k..]);
      WrittenIsDecoded(s[k..], t[1..]);
      DecodeStep(s[..k], s[k..], t[0], t[1..]);
      assert s[..k] + s[k..] == s && t == [t[0]] + t[1..];
    }
  }

  /** Exactly what decodeURIComponent accepts, and what it gives: it returns `t` on `s` if and only if `s`
      spells `t`, and so it throws exactly on the strings that spell nothing. */
  lemma DecodeExact(s: string, t: string)
    ensures Decode(s) == Some(t) <==> Writes(s, t)
  {
    if Decode(s) == Some(t) { DecodedIsWritten(s, t); }
    if Writes(s, t) { WrittenIsDecoded(s, t); }
  }

  /** Characters that can occur in encoded text. */
  predicate Tame(s: string) { forall i :: 0 <= i < |s| ==> Unreserved(s[i]) || s[i] == '%' }

  lemma {:induction false} EscapedIsTame(bs: seq<nat>, i: nat)
    requires i <= |bs| && forall k :: 0 <= k < |bs| ==> bs[k] < 256
    ensures Tame(EscapeFrom(bs, i))
    decreases |bs| - i
  {
    if i == |bs| {
    } else {
      HexRoundTrip(bs[i] / 16);
      HexRoundTrip(bs[i] % 16);
      EscapedIsTame(bs, i + 1);
    }
  }

  lemma {:induction false} EncodedIsTame(s: string)
    ensures Tame(Encode(s))
  {
    if s == [] {
    } else {
      EncodedIsTame(s[1..]);
      if !Unreserved(s[0]) { EscapedIsTame(Octets(s[0] as int), 0); }
    }
  }

  // ----- String.prototype: split, indexOf, trim -----

  function Split(s: string, sep: char): (parts: seq<string>)
    ensures |parts| >= 1
  {
    if s == [] then [[]]
    else
      var parts := Split(s[..|s| - 1], sep);
      if s[|s| - 1] == sep then parts + [[]] else parts[|parts| - 1 := parts[|parts| - 1] + [s[|s| - 1]]]
  }

  function IndexOf(s: string, c: char): (i: int)
    ensures -1 <= i < |s| && (i >= 0 ==> s[i] == c && c !in s[..i]) && (i == -1 ==> c !in s)
  {
    if s == [] then -1
    else if s[0] == c then 0
    else
      var i := IndexOf(s[1..], c);
      assert s == [s[0]] + s[1..];
      if i == -1 then -1 else (assert s[..i + 1] == [s[0]] + s[1..][..i]; i + 1)
  }

  /** White space and line terminators, as `trim` removes them. */
  predicate Blank(c: char) {
    var n := c as int;
    n in {9, 10, 11, 12, 13, 32, 0xA0, 0x1680, 0x2028, 0x2029, 0x202F, 0x205F, 0x3000, 0xFEFF} || 0x2000 <= n <= 0x200A
  }

  function Trim(s: string): string {
    if s == [] then []
    else if Blank(s[0]) then Trim(s[1..])
    else if Blank(s[|s| - 1]) then Trim(s[..|s| - 1])
    else s
  }

  // ----- parsing -----

  type CookieMap = map<string, string>

  /** Assigning to `__proto__` of a plain object stores nothing. */
  function Put(m: CookieMap, key: string, value: string): CookieMap {
    if key == "__proto__" then m else m[key := value]
  }

  function ParsePart(m: CookieMap, part: string): CookieMap {
    var i := IndexOf(part, '=');
    if i == -1 then m
    else
      var key, value := Trim(part[..i]), Trim(part[i + 1..]);
      if key == "" then m else Put(m, key, if Decode(value).Some? then Decode(value).value else value)
  }

  function ParseParts(parts: seq<string>): CookieMap {
    if parts == [] then map[] else ParsePart(ParseParts(parts[..|parts| - 1]), parts[|parts| - 1])
  }

  lemma ParseEmpty()
    ensures ParseParts(Split("", ';')) == map[]
  {
    assert Split("", ';') == [""] && [""][..0] == [];
  }

  method ParseCookies(header: Option<string>) returns (out: CookieMap)
    ensures out == if header.None? then map[] else ParseParts(Split(header.value, ';'))
  {
    out := map[];
    if header.None? || header.value == "" {
      ParseEmpty();
      return;
    }
    var parts := Split(header.value, ';');
    var n := 0;
    while n < |parts|
      invariant 0 <= n <= |parts|
      invariant out == ParseParts(parts[..n])
    {
      var part := parts[n];
      assert parts[..n + 1][..n] == parts[..n];
      n := n + 1;
      var separatorIndex := IndexOf(part, '=');
      if separatorIndex == -1 {
        continue;
      }
      var key := Trim(part[..separatorIndex]);
      var value := Trim(part[separatorIndex + 1..]);
      if key != "" {
        var decoded := Decode(value);
        out := Put(out, key, if decoded.Some? then decoded.value else value);
      }
    }
    assert parts[..|parts|] == parts;
  }

  // ----- printing and the round trip -----

  /** A name and the text sent for its value. */
  datatype Cookie = Cookie(name: string, value: string)

  /** A name that survives splitting and trimming. */
  predicate PlainName(name: string) {
    name != "" && ';' !in name && '=' !in name && !Blank(name[0]) && !Blank(name[|name| - 1])
  }

  /** A cookie that survives splitting and trimming; its value may hold '=' and any escapes, good or bad. */
  predicate Carried(c: Cookie) { PlainName(c.name) && ';' !in c.value && Trim(c.value) == c.value }

  predicate AllCarried(cookies: seq<Cookie>) { forall i :: 0 <= i < |cookies| ==> Carried(cookies[i]) }

  predicate AllPlain(cookies: seq<Cookie>) { forall i :: 0 <= i < |cookies| ==> PlainName(cookies[i].name) }

  function PrintOne(c: Cookie): string { c.name + "=" + c.value }

  /** The cookie-string of section 4.2.1 of RFC 6265. */
  function Print(cookies: seq<Cookie>): string {
    if cookies == [] then ""
    else if |cookies| == 1 then PrintOne(cookies[0])
    else Print(cookies[..|cookies| - 1]) + "; " + PrintOne(cookies[|cookies| - 1])
  }

  /** What a sent value is read as: decoded, or kept as it is where it does not decode. */
  function Read(value: string): string { if Decode(value).Some? then Decode(value).value else value }

  /** The value each name has last. */
  function LastWins(cookies: seq<Cookie>): CookieMap {
    if cookies == [] then map[]
    else Put(LastWins(cookies[..|cookies| - 1]), cookies[|cookies| - 1].name, cookies[|cookies| - 1].value)
  }

  function ReadAll(cookies: seq<Cookie>): seq<Cookie> {
    seq(|cookies|, i requires 0 <= i < |cookies| => Cookie(cookies[i].name, Read(cookies[i].value)))
  }

  function EncodeValues(cookies: seq<Cookie>): seq<Cookie> {
    seq(|cookies|, i requires 0 <= i < |cookies| => Cookie(cookies[i].name, Encode(cookies[i].value)))
  }

  lemma {:induction false} SplitAppend(s: string, t: string, sep: char)
    requires sep !in t
    ensures Split(s + [sep] + t, sep) == Split(s, sep) + [t]
  {
    var u := s + [sep] + t;
    assert u[..|u| - 1] == if t == [] then s else s + [sep] + t[..|t| - 1];
    if t == [] {
    } else {
      SplitAppend(s, t[..|t| - 1], sep);
      assert t == t[..|t| - 1] + [t[|t| - 1]];
      assert t[|t| - 1] in t;
    }
  }

  lemma {:induction false} SplitNone(t: string, sep: char)
    requires sep !in t
    ensures Split(t, sep) == [t]
  {
    if t == [] {
    } else {
      SplitNone(t[..|t| - 1], sep);
      assert t == t[..|t| - 1] + [t[|t| - 1]];
      assert t[|t| - 1] in t;
    }
  }

  lemma {:induction false} FirstEquals(name: string, rest: string)
    requires '=' !in name
    ensures IndexOf(name + "=" + rest, '=') == |name|
  {
    var s := name + "=" + rest;
    if name == [] {
    } else {
      assert s[0] == name[0] && name[0] in name;
      FirstEquals(name[1..], rest);
      assert s[1..] == name[1..] + "=" + rest;
    }
  }

  lemma TameIsPlain(s: string)
    requires Tame(s)
    ensures ';' !in s && Trim(s) == s
  {
  }

  lemma TrimName(name: string)
    requires PlainName(name)
    ensures Trim(name) == name && Trim(" " + name) == name
  {
    assert (" " + name)[1..] == name;
  }

  /** A part made of a key, "=" and a value without blanks around it. */
  lemma ParseKeyValue(m: CookieMap, key: string, value: string)
    requires '=' !in key && Trim(key) != "" && Trim(value) == value
    ensures ParsePart(m, key + "=" + value) == Put(m, Trim(key), Read(value))
  {
    var part := key + "=" + value;
    FirstEquals(key, value);
    assert part[..|key|] == key && part[|key| + 1..] == value;
  }

  lemma TrimLeadName(lead: string, name: string)
    requires PlainName(name) && (lead == "" || lead == " ")
    ensures Trim(lead + name) == name && '=' !in lead + name
  {
    TrimName(name);
    assert lead == "" ==> lead + name == name;
  }

  lemma Regroup(a: string, b: string, c: string, d: string)
    ensures a + (b + c + d) == (a + b) + c + d
  {
  }

  lemma ParsePrintedPart(m: CookieMap, c: Cookie, lead: string)
    requires Carried(c) && (lead == "" || lead == " ")
    ensures ParsePart(m, lead + PrintOne(c)) == Put(m, c.name, Read(c.value))
  {
    TrimLeadName(lead, c.name);
    ParseKeyValue(m, lead + c.name, c.value);
    Regroup(lead, c.name, "=", c.value);
  }

  lemma ParseOnePart(c: Cookie)
    requires Carried(c)
    ensures ParseParts(Split(PrintOne(c), ';')) == Put(map[], c.name, Read(c.value))
  {
    SplitNone(PrintOne(c), ';');
    ParsePrintedPart(map[], c, "");
    assert "" + PrintOne(c) == PrintOne(c);
    assert [PrintOne(c)][..0] == [];
  }

  lemma ParseLastPart(cookies: seq<Cookie>)
    requires |cookies| > 1 && Carried(cookies[|cookies| - 1])
    ensures var rest, c := cookies[..|cookies| - 1], cookies[|cookies| - 1];
            ParseParts(Split(Print(cookies), ';')) == Put(ParseParts(Split(Print(rest), ';')), c.name, Read(c.value))
  {
    var rest, c := cookies[..|cookies| - 1], cookies[|cookies| - 1];
    var part := " " + PrintOne(c);
    assert Print(cookies) == Print(rest) + [';'] + part;
    SplitAppend(Print(rest), part, ';');
    var parts := Split(Print(rest), ';');
    assert (parts + [part])[..|parts|] == parts;
    ParsePrintedPart(ParseParts(parts), c, " ");
  }

  /** Any header of carried cookies parses to the last value of each name, decoded where it decodes and
      raw where an escape in it is malformed: one bad value harms no other. */
  lemma {:induction false} HeaderIsLastWins(cookies: seq<Cookie>)
    requires AllCarried(cookies)
    ensures ParseParts(Split(Print(cookies), ';')) == LastWins(ReadAll(cookies))
  {
    if cookies == [] {
      ParseEmpty();
    } else {
      var n := |cookies| - 1;
      var rest := cookies[..n];
      HeaderIsLastWins(rest);
      assert ReadAll(cookies)[..n] == ReadAll(rest);
      if n == 0 { ParseOnePart(cookies[0]); } else { ParseLastPart(cookies); }
    }
  }

  lemma EncodedIsCarried(c: Cookie)
    requires PlainName(c.name)
    ensures Carried(Cookie(c.name, Encode(c.value))) && Read(Encode(c.value)) == c.value
  {
    EncodedIsTame(c.value);
    TameIsPlain(Encode(c.value));
    DecodeEncode(c.value);
  }

  /** Parsing inverts printing: joining any cookies with plain names and percent-encoded values as a Cookie
      header and parsing it back gives, for every name, the last value, whatever characters it holds. */
  lemma CookieRoundTrip(cookies: seq<Cookie>)
    requires AllPlain(cookies)
    ensures ParseParts(Split(Print(EncodeValues(cookies)), ';')) == LastWins(cookies)
  {
    forall i | 0 <= i < |cookies|
      ensures Carried(EncodeValues(cookies)[i]) && ReadAll(EncodeValues(cookies))[i] == cookies[i]
    {
      EncodedIsCarried(cookies[i]);
    }
    HeaderIsLastWins(EncodeValues(cookies));
    assert ReadAll(EncodeValues(cookies)) == cookies;
  }

  /** The last cookie of a name decides. */
  lemma {:induction false} LastOfName(cookies: seq<Cookie>, i: nat)
    requires i < |cookies| && cookies[i].name != "__proto__"
    requires forall j :: i < j < |cookies| ==> cookies[j].name != cookies[i].name
    ensures var m := LastWins(cookies); cookies[i].name in m && m[cookies[i].name] == cookies[i].value
    decreases |cookies|
  {
    var n := |cookies| - 1;
    if i == n {
    } else {
      assert cookies[..n][i] == cookies[i];
      LastOfName(cookies[..n], i);
    }
  }

  lemma LastRead(cookies: seq<Cookie>, i: nat)
    requires i < |cookies| && cookies[i].name != "__proto__"
    requires forall j :: i < j < |cookies| ==> cookies[j].name != cookies[i].name
    ensures var m := LastWins(ReadAll(cookies)); cookies[i].name in m && m[cookies[i].name] == Read(cookies[i].value)
  {
    var read := ReadAll(cookies);
    assert read[i].name == cookies[i].name;
    LastOfName(read, i);
  }

  /** A malformed escape anywhere in a header fails nothing: that value is kept as sent. */
  lemma MalformedEscapeKeepsRaw(cookies: seq<Cookie>, i: nat)
    requires AllCarried(cookies) && i < |cookies| && cookies[i].name != "__proto__" && Decode(cookies[i].value).None?
    requires forall j :: i < j < |cookies| ==> cookies[j].name != cookies[i].name
    ensures var m := ParseParts(Split(Print(cookies), ';'));
            cookies[i].name in m && m[cookies[i].name] == cookies[i].value
  {
    HeaderIsLastWins(cookies);
    LastRead(cookies, i);
  }

  // ----- every header -----

  predicate AllBlank(s: string) { forall i :: 0 <= i < |s| ==> Blank(s[i]) }

  predicate Trimmed(s: string) { s == "" || (!Blank(s[0]) && !Blank(s[|s| - 1])) }

  lemma {:induction false} TrimTail(core: string, tail: string)
    requires AllBlank(tail) && Trimmed(core)
    ensures Trim(core + tail) == core
    decreases |tail|
  {
    var s := core + tail;
    if tail == "" {
      assert s == core;
    } else if core == "" {
      assert s == tail && s[1..] == core + tail[1..];
      TrimTail(core, tail[1..]);
    } else {
      assert s[..|s| - 1] == core + tail[..|tail| - 1];
      TrimTail(core, tail[..|tail| - 1]);
    }
  }

  /** Trimming removes the blanks at both ends and nothing else. */
  lemma {:induction false} TrimExact(lead: string, core: string, tail: string)
    requires AllBlank(lead) && AllBlank(tail) && Trimmed(core)
    ensures Trim(lead + core + tail) == core
    decreases |lead|
  {
    var s := lead + core + tail;
    if lead == "" {
      assert s == core + tail;
      TrimTail(core, tail);
    } else {
      assert s[1..] == lead[1..] + core + tail;
      TrimExact(lead[1..], core, tail);
    }
  }

  /** Every string is a trimmed one between blanks. */
  lemma {:induction false} TrimSplits(s: string) returns (lead: string, core: string, tail: string)
    ensures s == lead + core + tail && AllBlank(lead) && AllBlank(tail) && Trimmed(core)
    decreases |s|
  {
    if s == "" {
      lead, core, tail := "", "", "";
    } else if Blank(s[0]) {
      lead, core, tail := TrimSplits(s[1..]);
      lead := [s[0]] + lead;
      assert s == [s[0]] + s[1..];
    } else if Blank(s[|s| - 1]) {
      lead, core, tail := TrimSplits(s[..|s| - 1]);
      tail := tail + [s[|s| - 1]];
      assert s == s[..|s| - 1] + [s[|s| - 1]];
    } else {
      lead, core, tail := "", s, "";
    }
  }

  /** One part of a header between semicolons. */
  datatype Piece =
    | Bare(text: string)
    | Pair(lead: string, name: string, gap: string, space: string, value: string, tail: string)

  /** A bare part has no '='. In a pair the first '=' separates, and blanks may surround name and value; the
      name may be empty. */
  predicate IsPiece(p: Piece) {
    match p
    case Bare(text) => ';' !in text && '=' !in text
    case Pair(lead, name, gap, space, value, tail) =>
      && AllBlank(lead) && AllBlank(gap) && AllBlank(space) && AllBlank(tail) && Trimmed(name) && Trimmed(value)
      && ';' !in name && '=' !in name && ';' !in value
  }

  predicate AllPieces(ps: seq<Piece>) { forall p :: p in ps ==> IsPiece(p) }

  function PieceText(p: Piece): string {
    match p
    case Bare(text) => text
    case Pair(lead, name, gap, space, value, tail) => (lead + name + gap) + "=" + (space + value + tail)
  }

  /** The pieces of a header, joined by semicolons. */
  function Join(ps: seq<Piece>): string
    requires ps != []
  {
    if |ps| == 1 then PieceText(ps[0]) else Join(ps[..|ps| - 1]) + [';'] + PieceText(ps[|ps| - 1])
  }

  /** The pairs that name a cookie, read. */
  function Named(ps: seq<Piece>): seq<Cookie> {
    if ps == [] then []
    else
      var p := ps[|ps| - 1];
      Named(ps[..|ps| - 1]) + if p.Pair? && p.name != "" then [Cookie(p.name, Read(p.value))] else []
  }

  lemma BlanksAreOrdinary(s: string)
    requires AllBlank(s)
    ensures ';' !in s && '=' !in s
  {
  }

  lemma PieceHasNoSemicolon(p: Piece)
    requires IsPiece(p)
    ensures ';' !in PieceText(p)
  {
    if p.Pair? {
      BlanksAreOrdinary(p.lead);
      BlanksAreOrdinary(p.gap);
      BlanksAreOrdinary(p.space);
      BlanksAreOrdinary(p.tail);
    }
  }

  lemma ParsePiece(m: CookieMap, p: Piece)
    requires IsPiece(p)
    ensures ParsePart(m, PieceText(p)) == if p.Pair? && p.name != "" then Put(m, p.name, Read(p.value)) else m
  {
    match p
    case Bare(text) =>
    case Pair(lead, name, gap, space, value, tail) =>
      BlanksAreOrdinary(lead);
      BlanksAreOrdinary(gap);
      TrimExact(lead, name, gap);
      TrimExact(space, value, tail);
      var key, rest := lead + name + gap, space + value + tail;
      FirstEquals(key, rest);
      var part := PieceText(p);
      assert part == key + "=" + rest && part[..|key|] == key && part[|key| + 1..] == rest;
  }

  lemma LastWinsOneMore(before: seq<Cookie>, c: Cookie)
    ensures LastWins(before + [c]) == Put(LastWins(before), c.name, c.value)
  {
    assert (before + [c])[..|before|] == before;
  }

  lemma NamedOneMore(ps: seq<Piece>, m: CookieMap)
    requires ps != [] && m == LastWins(Named(ps[..|ps| - 1]))
    ensures var p := ps[|ps| - 1];
            LastWins(Named(ps)) == if p.Pair? && p.name != "" then Put(m, p.name, Read(p.value)) else m
  {
    var p, before := ps[|ps| - 1], Named(ps[..|ps| - 1]);
    if p.Pair? && p.name != "" {
      LastWinsOneMore(before, Cookie(p.name, Read(p.value)));
    } else {
      assert before + [] == before;
    }
  }

  lemma ParseOnePiece(p: Piece)
    requires IsPiece(p)
    ensures ParseParts(Split(PieceText(p), ';')) == ParsePart(map[], PieceText(p))
  {
    PieceHasNoSemicolon(p);
    SplitNone(PieceText(p), ';');
    assert [PieceText(p)][..0] == [];
  }

  lemma ParseLastPiece(header: string, p: Piece)
    requires IsPiece(p)
    ensures ParseParts(Split(header + [';'] + PieceText(p), ';')) == ParsePart(ParseParts(Split(header, ';')), PieceText(p))
  {
    PieceHasNoSemicolon(p);
    SplitAppend(header, PieceText(p), ';');
    var parts := Split(header, ';');
    assert (parts + [PieceText(p)])[..|parts|] == parts;
  }

  /** What any pieces parse to: a part without '=' or without a name changes nothing, wherever it stands; every
      other part sets its name, trimmed, to its value, trimmed, and decoded or kept as sent. */
  lemma {:induction false} PiecesParse(ps: seq<Piece>)
    requires ps != [] && AllPieces(ps)
    ensures ParseParts(Split(Join(ps), ';')) == LastWins(Named(ps))
  {
    var p, rest := ps[|ps| - 1], ps[..|ps| - 1];
    if rest == [] {
      ParseOnePiece(p);
      ParsePiece(map[], p);
      NamedOneMore(ps, map[]);
    } else {
      PiecesParse(rest);
      ParseLastPiece(Join(rest), p);
      ParsePiece(LastWins(Named(rest)), p);
      NamedOneMore(ps, LastWins(Named(rest)));
    }
  }

  lemma PieceOf(text: string) returns (p: Piece)
    requires ';' !in text
    ensures IsPiece(p) && PieceText(p) == text
  {
    var i := IndexOf(text, '=');
    if i == -1 {
      p := Bare(text);
    } else {
      var lead, name, gap := TrimSplits(text[..i]);
      var space, value, tail := TrimSplits(text[i + 1..]);
      p := Pair(lead, name, gap, space, value, tail);
      assert text == text[..i] + "=" + text[i + 1..];
      assert forall j :: 0 <= j < |name| ==> name[j] == text[|lead| + j];
      assert forall j :: 0 <= j < |value| ==> value[j] == text[i + 1 + |space| + j];
    }
  }

  lemma OneMorePiece(ps: seq<Piece>, p: Piece)
    requires ps != [] && AllPieces(ps) && IsPiece(p)
    ensures AllPieces(ps + [p]) && Join(ps + [p]) == Join(ps) + [';'] + PieceText(p)
  {
    assert (ps + [p])[..|ps|] == ps;
  }

  lemma LastPart(header: string) returns (front: string, text: string)
    requires ';' in header
    ensures header == front + [';'] + text && ';' !in text && |front| < |header|
  {
    var i := LastIndexOf(header, ';');
    front, text := header[..i], header[i + 1..];
    assert header == header[..i] + [header[i]] + header[i + 1..];
  }

  lemma OnePiece(p: Piece)
    requires IsPiece(p)
    ensures AllPieces([p]) && Join([p]) == PieceText(p)
  {
  }

  /** Every header is made of pieces, so `PiecesParse` says what every header parses to. */
  lemma {:induction false} EveryHeader(header: string) returns (ps: seq<Piece>)
    ensures ps != [] && Join(ps) == header && AllPieces(ps)
    decreases |header|
  {
    if ';' !in header {
      var p := PieceOf(header);
      OnePiece(p);
      ps := [p];
    } else {
      var front, text := LastPart(header);
      var rest := EveryHeader(front);
      var p := PieceOf(text);
      OneMorePiece(rest, p);
      ps := rest + [p];
    }
  }

  function LastIndexOf(s: string, c: char): (i: int)
    ensures -1 <= i < |s| && (i >= 0 ==> s[i] == c && c !in s[i + 1..]) && (i == -1 ==> c !in s)
  {
    if s == [] then -1
    else if s[|s| - 1] == c then |s| - 1
    else
      var i := LastIndexOf(s[..|s| - 1], c);
      assert s == s[..|s| - 1] + [s[|s| - 1]];
      if i == -1 then -1 else (assert s[i + 1..] == s[..|s| - 1][i + 1..] + [s[|s| - 1]]; i)
  }
}

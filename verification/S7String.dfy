/**
 * S7 STRING fields: UTF-8 as defined by RFC 3629, section 3, the library's byte-level truncation
 * (`encode_s7_string`), its index-advancing decoder (`decode_utf8`, `decode_s7_string`) and the
 * padded field of protocol/field.mbt.
 */
module S7String {
  import opened Bytes

  /** A Unicode scalar value. */
  type Scalar = c: int | 0 <= c < 0xD800 || 0xE000 <= c < 0x11_0000

  type Text = seq<Scalar>

  // ----- UTF-8 -----

  function EncodeChar(c: Scalar): (b: seq<Byte>)
    ensures |b| == if c < 0x80 then 1 else if c < 0x800 then 2 else if c < 0x1_0000 then 3 else 4
  {
    if c < 0x80 then [c]
    else if c < 0x800 then [0xC0 + c / 64, 0x80 + c % 64]
    else if c < 0x1_0000 then [0xE0 + c / 4096, 0x80 + c / 64 % 64, 0x80 + c % 64]
    else [0xF0 + c / 262144, 0x80 + c / 4096 % 64, 0x80 + c / 64 % 64, 0x80 + c % 64]
  }

  /** The table of RFC 3629, section 3: lead byte, continuation bytes, and the number they spell. */
  lemma {:induction false} Utf8Table(c: Scalar)
    ensures var b := EncodeChar(c);
      && (forall i | 0 < i < |b| :: 0x80 <= b[i] <= 0xBF)
      && (|b| == 1 ==> b[0] <= 0x7F && c == b[0])
      && (|b| == 2 ==> 0xC2 <= b[0] <= 0xDF && c == 64 * (b[0] as int - 0xC0) + (b[1] as int - 0x80))
      && (|b| == 3 ==>
            0xE0 <= b[0] <= 0xEF
            && c == 4096 * (b[0] as int - 0xE0) + 64 * (b[1] as int - 0x80) + (b[2] as int - 0x80))
      && (|b| == 4 ==>
            0xF0 <= b[0] <= 0xF4
            && c == 262144 * (b[0] as int - 0xF0) + 4096 * (b[1] as int - 0x80) + 64 * (b[2] as int - 0x80)
                    + (b[3] as int - 0x80))
  {
    CharParts(c);
  }

  function Encode(s: Text): seq<Byte> {
    if s == [] then [] else EncodeChar(s[0]) + Encode(s[1..])
  }

  /** Bytes consumed and characters produced by one turn of the decoder; its last branch skips a byte. */
  function Turn(b: seq<Byte>): (t: (nat, seq<int>))
    requires b != []
    ensures 0 < t.0 <= |b|
  {
    if b[0] < 0x80 then (1, [b[0] as int])
    else if b[0] < 0xE0 && 1 < |b| then (2, [Two(b)])
    else if b[0] < 0xF0 && 2 < |b| then (3, [Three(b)])
    else if 3 < |b| then (4, [Four(b)])
    else (1, [])
  }

  function Decode(b: seq<Byte>): seq<int> {
    if b == [] then [] else Turn(b).1 + Decode(b[Turn(b).0..])
  }

  function Two(b: seq<Byte>): int
    requires 1 < |b|
  {
    64 * (b[0] as int % 32) + b[1] as int % 64
  }

  function Three(b: seq<Byte>): int
    requires 2 < |b|
  {
    4096 * (b[0] as int % 16) + 64 * (b[1] as int % 64) + b[2] as int % 64
  }

  function Four(b: seq<Byte>): int
    requires 3 < |b|
  {
    262144 * (b[0] as int % 8) + 4096 * (b[1] as int % 64) + 64 * (b[2] as int % 64) + b[3] as int % 64
  }

  method DecodeUtf8(b: seq<Byte>) returns (chars: seq<int>)
    ensures chars == Decode(b)
  {
    chars := [];
    var i := 0;
    while i < |b|
      invariant 0 <= i <= |b| && chars + Decode(b[i..]) == Decode(b)
    {
      ghost var rest, before, was := b[i..], chars, i;
      DecodeNext(chars, rest);
      hide Decode;
      var c0 := b[i];
      if c0 < 0x80 {
        chars := chars + [c0 as int];
        i := i + 1;
      } else if c0 < 0xE0 && i + 1 < |b| {
        chars := chars + [64 * (c0 as int % 32) + b[i + 1] as int % 64];
        i := i + 2;
      } else if c0 < 0xF0 && i + 2 < |b| {
        chars := chars + [4096 * (c0 as int % 16) + 64 * (b[i + 1] as int % 64) + b[i + 2] as int % 64];
        i := i + 3;
      } else if i + 3 < |b| {
        chars := chars + [262144 * (c0 as int % 8) + 4096 * (b[i + 1] as int % 64) + 64 * (b[i + 2] as int % 64)
                          + b[i + 3] as int % 64];
        i := i + 4;
      } else {
        i := i + 1;
      }
      assert Turn(rest).0 == i - was;
      assert chars == before + Turn(rest).1;
      hide Turn;
      assert rest[i - was..] == b[i..];
    }
    assert b[i..] == [];
  }

  lemma {:induction false} DecodeNext(chars: seq<int>, rest: seq<Byte>)
    requires rest != []
    ensures chars + Decode(rest) == (chars + Turn(rest).1) + Decode(rest[Turn(rest).0..])
  {
  }

  // ----- Round trip -----

  lemma {:induction false} CharParts(c: Scalar)
    ensures 64 * (c / 64) + c % 64 == c
    ensures 4096 * (c / 4096) + 64 * (c / 64 % 64) + c % 64 == c
    ensures 262144 * (c / 262144) + 4096 * (c / 4096 % 64) + 64 * (c / 64 % 64) + c % 64 == c
  {
    var q := c / 64;
    assert c / 4096 == q / 64;
    assert c / 262144 == (q / 64) / 64;
  }

  /** One turn of the decoder reads one encoded character, whatever follows it. */
  lemma {:induction false} TurnOnChar(c: Scalar, rest: seq<Byte>)
    ensures Turn(EncodeChar(c) + rest) == (|EncodeChar(c)|, [c as int])
  {
    CharParts(c);
    var e := EncodeChar(c);
    var b := e + rest;
    assert b[0] == e[0] && (|e| > 1 ==> b[1] == e[1]) && (|e| > 2 ==> b[2] == e[2]) && (|e| > 3 ==> b[3] == e[3]);
    LeadByte(c);
  }

  /** The lead byte tells the length and keeps the top bits; a continuation byte keeps six bits. */
  lemma {:induction false} LeadByte(c: Scalar)
    ensures 0x80 <= c < 0x800 ==> 0xC0 <= 0xC0 + c / 64 < 0xE0 && (0xC0 + c / 64) % 32 == c / 64
    ensures 0x800 <= c < 0x1_0000 ==> 0xE0 <= 0xE0 + c / 4096 < 0xF0 && (0xE0 + c / 4096) % 16 == c / 4096
    ensures 0x1_0000 <= c ==> 0xF0 <= 0xF0 + c / 262144 && (0xF0 + c / 262144) % 8 == c / 262144
    ensures (0x80 + c % 64) % 64 == c % 64 && (0x80 + c / 64 % 64) % 64 == c / 64 % 64
    ensures (0x80 + c / 4096 % 64) % 64 == c / 4096 % 64
  {
  }

  lemma {:induction false} DecodeChar(c: Scalar, rest: seq<Byte>)
    ensures Decode(EncodeChar(c) + rest) == [c as int] + Decode(rest)
  {
    TurnOnChar(c, rest);
    hide EncodeChar, Turn;
    assert (EncodeChar(c) + rest)[|EncodeChar(c)|..] == rest;
  }

  lemma {:induction false} JoinFront(s: Text, more: seq<int>)
    requires s != []
    ensures [s[0] as int] + (s[1..] + more) == s + more
  {
  }

  lemma {:induction false} DecodeText(s: Text, rest: seq<Byte>)
    ensures Decode(Encode(s) + rest) == s + Decode(rest)
  {
    if s == [] {
      assert [] + rest == rest && s + Decode(rest) == Decode(rest);
    } else {
      hide EncodeChar, Decode;
      var more := Encode(s[1..]) + rest;
      assert Encode(s) + rest == EncodeChar(s[0]) + more;
      DecodeChar(s[0], more);
      DecodeText(s[1..], rest);
      JoinFront(s, Decode(rest));
    }
  }

  // ----- Truncation -----

  /** The number of whole characters of `s` whose encoding fits in `n` bytes. */
  function Fit(s: Text, n: nat): (k: nat)
    ensures k <= |s|
  {
    if s == [] || |EncodeChar(s[0])| > n then 0 else 1 + Fit(s[1..], n - |EncodeChar(s[0])|)
  }

  /** The bytes of a character that is cut in the middle; none when the cut is between characters. */
  function Remnant(s: Text, n: nat): nat {
    if s == [] then 0
    else if |EncodeChar(s[0])| > n then n
    else Remnant(s[1..], n - |EncodeChar(s[0])|)
  }

  /** `Fit` is the longest prefix that fits, and `Remnant` what the cut leaves of the next character. */
  lemma {:induction false} FitIsLongest(s: Text, n: nat)
    ensures var k := Fit(s, n);
      && |Encode(s[..k])| <= n
      && (k < |s| ==> |Encode(s[..k])| <= n < |Encode(s[..k])| + |EncodeChar(s[k])| == |Encode(s[..k + 1])|
                      && Remnant(s, n) == n - |Encode(s[..k])|)
      && (k == |s| ==> Remnant(s, n) == 0)
  {
    if s != [] && |EncodeChar(s[0])| <= n {
      var m := n - |EncodeChar(s[0])|;
      FitIsLongest(s[1..], m);
      var k := Fit(s[1..], m);
      assert s[..k + 1][0] == s[0] && s[..k + 1][1..] == s[1..][..k];
      if k + 1 < |s| {
        assert s[..k + 2][0] == s[0] && s[..k + 2][1..] == s[1..][..k + 1];
      }
    } else if s != [] {
      assert s[..1][1..] == [];
      assert Encode(s[..1]) == EncodeChar(s[0]) + [];
    }
  }

  /** A cut encoding is a whole-character prefix followed by the front of one character. */
  lemma {:induction false} CutEncoding(s: Text, n: nat)
    requires n <= |Encode(s)|
    ensures var k := Fit(s, n);
      && Remnant(s, n) <= |if k < |s| then EncodeChar(s[k]) else []|
      && Encode(s)[..n] == Encode(s[..k]) + (if k < |s| then EncodeChar(s[k])[..Remnant(s, n)] else [])
  {
    if s == [] {
    } else if |EncodeChar(s[0])| > n {
      assert s[..0] == [] && Encode(s[..0]) == [];
      assert Encode(s)[..n] == EncodeChar(s[0])[..n];
    } else {
      var e := EncodeChar(s[0]);
      var m := n - |e|;
      CutEncoding(s[1..], m);
      var k := Fit(s[1..], m);
      assert s[..k + 1][0] == s[0] && s[..k + 1][1..] == s[1..][..k];
      assert Encode(s)[..n] == e + Encode(s[1..])[..m];
      assert Encode(s[..k + 1]) == e + Encode(s[1..][..k]);
    }
  }

  /** The front of a character decodes to nothing, except for three bytes of a four-byte character. */
  lemma {:induction false} DecodeRemnant(c: Scalar, t: nat)
    requires t < |EncodeChar(c)|
    ensures t == 3 ==> |Decode(EncodeChar(c)[..t])| == 1
    ensures t != 3 ==> Decode(EncodeChar(c)[..t]) == []
  {
    var b := EncodeChar(c)[..t];
    if t == 0 {
    } else if t == 1 {
      assert b[1..] == [];
    } else if t == 2 {
      assert b[0] >= 0xE0 && 0x80 <= b[1] < 0xC0;
      var u := b[1..];
      assert |u| == 1 && u[0] == b[1] && u[1..] == [];
      assert Turn(b) == (1, []) && Turn(u) == (1, []);
      assert Decode(u) == [] + [];
    } else {
      assert c >= 0x1_0000 && b[0] >= 0xF0 && 0x80 <= b[1] < 0xC0;
      var u := b[1..];
      assert u[0] == b[1] && |u| == 2 && u[2..] == [];
      assert Turn(b) == (1, []) && Turn(u) == (2, [Two(u)]);
      assert Decode(u) == [Two(u)] + [];
      assert Decode(b) == [] + Decode(u);
    }
  }

  /** The cut falls after the third byte of a four-byte character. */
  predicate LeavesThree(s: Text, n: nat) {
    Fit(s, n) < |s| && Remnant(s, n) == 3
  }

  /**
   * Truncating the encoding to `n` bytes and decoding gives exactly the longest prefix that fits, if
   * and only if the cut does not leave three bytes of a four-byte character; there the two trailing
   * continuation bytes decode as one extra character.
   */
  lemma {:induction false} TruncationExact(s: Text, n: nat)
    ensures Decode(Encode(s)[..Min(n, |Encode(s)|)]) == s[..Fit(s, n)] <==> !LeavesThree(s, n)
    ensures LeavesThree(s, n) ==> |Decode(Encode(s)[..Min(n, |Encode(s)|)])| == Fit(s, n) + 1
  {
    FitIsLongest(s, n);
    var k := Fit(s, n);
    if k == |s| {
      assert s[..k] == s;
      DecodeText(s, []);
      assert Encode(s) + [] == Encode(s) && s + [] == s;
      assert Encode(s)[..|Encode(s)|] == Encode(s);
    } else {
      EncodeSplit(s, k + 1);
      CutEncoding(s, n);
      var t := Remnant(s, n);
      DecodeText(s[..k], EncodeChar(s[k])[..t]);
      DecodeRemnant(s[k], t);
      assert s[..k] + [] == s[..k];
    }
  }

  lemma {:induction false} EncodeSplit(s: Text, k: nat)
    requires k <= |s|
    ensures Encode(s) == Encode(s[..k]) + Encode(s[k..])
  {
    hide EncodeChar;
    if k == 0 {
      assert s[..0] == [] && s[0..] == s;
    } else {
      EncodeSplit(s[1..], k - 1);
      assert s[..k][1..] == s[1..][..k - 1] && s[1..][k - 1..] == s[k..] && s[..k][0] == s[0];
    }
  }

  /** On the Basic Multilingual Plane truncation never harms: no cut can leave three bytes. */
  lemma {:induction false} TruncationSafeOnBmp(s: Text, n: nat)
    requires forall i | 0 <= i < |s| :: s[i] < 0x1_0000
    ensures Decode(Encode(s)[..Min(n, |Encode(s)|)]) == s[..Fit(s, n)]
  {
    FitIsLongest(s, n);
    TruncationExact(s, n);
  }

  // ----- S7 STRING fields -----

  /** `[max_len, cur_len, chars...]`, the two lengths narrowed to bytes. */
  function EncodeS7(maxLen: nat, s: Text): (b: seq<Byte>) {
    var chars := Encode(s);
    var cur := Min(maxLen, |chars|);
    [Lo8(maxLen), Lo8(cur)] + chars[..cur]
  }

  function DecodeS7(data: seq<Byte>): seq<int> {
    if |data| < 2 then [] else Decode(data[2..2 + Min(data[1], |data| - 2)])
  }

  /** The field padded with zeros to `max_len + 2` bytes. */
  function FieldBytes(maxLen: nat, s: Text): (b: seq<Byte>)
    ensures |b| == maxLen + 2
  {
    EncodeS7(maxLen, s) + Zeros(maxLen - Min(maxLen, |Encode(s)|))
  }

  method EncodeS7String(maxLen: nat, s: Text) returns (r: seq<Byte>)
    ensures r == EncodeS7(maxLen, s)
  {
    var chars := Encode(s);
    var cur := if |chars| > maxLen then maxLen else |chars|;
    r := [Lo8(maxLen), Lo8(cur)];
    for i := 0 to cur
      invariant r == [Lo8(maxLen), Lo8(cur)] + chars[..i]
    {
      r := r + [chars[i]];
    }
  }

  method DecodeS7String(data: seq<Byte>) returns (r: seq<int>)
    ensures r == DecodeS7(data)
  {
    if |data| < 2 {
      return [];
    }
    var cur := data[1];
    var avail := |data| - 2;
    var n := if cur > avail then avail else cur;
    var body: seq<Byte> := [];
    for i := 2 to 2 + n
      invariant body == data[2..i]
    {
      body := body + [data[i]];
    }
    r := DecodeUtf8(body);
  }

  method StringFieldToBytes(maxLen: nat, s: Text) returns (b: seq<Byte>)
    ensures b == FieldBytes(maxLen, s)
  {
    b := EncodeS7String(maxLen, s);
    ghost var head := b;
    while |b| < maxLen + 2
      invariant |head| <= |b| <= maxLen + 2 && b == head + Zeros(|b| - |head|)
    {
      b := b + [0x00];
    }
  }

  /**
   * The field byte by byte: declared length, current length, as many bytes of the UTF-8 form as fit the
   * declared length, zeros. The two lengths have one byte each.
   */
  lemma {:induction false} FieldLayout(maxLen: nat, s: Text)
    ensures var b, cur := FieldBytes(maxLen, s), Min(maxLen, |Encode(s)|);
      && |b| == maxLen + 2 && b[0] == maxLen % 256 && b[1] == cur % 256
      && b[2..2 + cur] == Encode(s)[..cur]
      && forall i | 2 + cur <= i < |b| :: b[i] == 0
  {
    hide Encode;
    var chars := Encode(s);
    var cur := Min(maxLen, |chars|);
    var head: seq<Byte> := [Lo8(maxLen), Lo8(cur)];
    assert FieldBytes(maxLen, s) == head + chars[..cur] + Zeros(maxLen - cur);
  }

  /** Reading a field back: the length byte keeps the cut length modulo 256, the padding is ignored. */
  lemma {:induction false} FieldDecodes(maxLen: nat, s: Text)
    ensures DecodeS7(FieldBytes(maxLen, s)) == Decode(Encode(s)[..Min(maxLen, |Encode(s)|) % 256])
  {
    var b, chars := FieldBytes(maxLen, s), Encode(s);
    var cur := Min(maxLen, |chars|);
    assert b[1] == cur % 256;
    assert b[2..2 + cur % 256] == chars[..cur % 256];
  }

  /**
   * The round trip of a whole field. A string whose encoding fits comes back unchanged; for every
   * declared length up to 255 what comes back is the longest prefix that fits, iff the cut does not
   * leave three bytes of a four-byte character.
   */
  lemma {:induction false} FieldRoundTrip(maxLen: nat, s: Text)
    ensures |Encode(s)| <= Min(maxLen, 255) ==> DecodeS7(FieldBytes(maxLen, s)) == s
    ensures maxLen <= 255
      ==> (DecodeS7(FieldBytes(maxLen, s)) == s[..Fit(s, maxLen)] <==> !LeavesThree(s, maxLen))
  {
    hide *;
    FieldDecodes(maxLen, s);
    TruncationExact(s, maxLen);
    DecodeWhole(s);
    var e := Encode(s);
    assert e[..|e|] == e;
  }

  /** A field cut short: whatever characters are there are decoded, and fewer than two bytes are the empty text. */
  lemma {:induction false} CutFieldDecodes(data: seq<Byte>)
    ensures |data| < 2 ==> DecodeS7(data) == []
    ensures |data| >= 2 && data[1] as int >= |data| - 2 ==> DecodeS7(data) == Decode(data[2..])
    ensures |data| >= 2 && data[1] as int <= |data| - 2 ==> DecodeS7(data) == Decode(data[2..2 + data[1]])
  {
    hide Decode;
    if |data| >= 2 {
      assert data[2..|data|] == data[2..];
    }
  }

  lemma {:induction false} DecodeWhole(s: Text)
    ensures Decode(Encode(s)) == s
  {
    DecodeText(s, []);
    assert Encode(s) + [] == Encode(s) && s + [] == s;
  }

  /** U+10000 cut to three bytes decodes to one wrong character instead of none. */
  lemma {:induction false} FourByteCutShowsGarbage()
    ensures Fit([0x1_0000], 3) == 0 && DecodeS7(FieldBytes(3, [0x1_0000])) == [0x400]
  {
    var s: Text := [0x1_0000];
    FieldDecodes(3, s);
    assert s[1..] == [];
    assert Encode(s) == [0xF0, 0x90, 0x80, 0x80];
    var b := Encode(s)[..3];
    assert b == [0xF0, 0x90, 0x80] && b[1..] == [0x90, 0x80] && b[1..][2..] == [];
    assert Decode(b) == [] + Decode(b[1..]);
  }
}

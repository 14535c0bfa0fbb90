/** UTF-16 as `String::from_utf16` decodes it and `encode_wide` produces it
    (section 2.2 of RFC 2781). */
module Utf16 {
  import opened Integers
  import opened Errors

  predicate IsHighSurrogate(u: u16) { 0xD800 <= u < 0xDC00 }
  predicate IsLowSurrogate(u: u16) { 0xDC00 <= u < 0xE000 }
  predicate IsSurrogate(u: u16) { 0xD800 <= u < 0xE000 }

  /** Well-formed UTF-16: every high surrogate is immediately followed by a low
      one, and every low surrogate immediately preceded by a high one. */
  predicate WellFormed(w: seq<u16>) {
    && (forall i :: 0 <= i < |w| && IsHighSurrogate(w[i]) ==> i + 1 < |w| && IsLowSurrogate(w[i + 1]))
    && (forall i :: 0 <= i < |w| && IsLowSurrogate(w[i]) ==> 0 < i && IsHighSurrogate(w[i - 1]))
  }

  /** The scalar value a surrogate pair stands for. */
  function Combine(hi: u16, lo: u16): (c: char)
    requires IsHighSurrogate(hi) && IsLowSurrogate(lo)
  {
    (0x1_0000 + (hi - 0xD800) * 0x400 + (lo - 0xDC00)) as char
  }

  /** `String::from_utf16`, with its error mapped to `Error::InvalidString`:
      decoding stops at the first unpaired surrogate. */
  function Decode(w: seq<u16>): (r: Result<string>)
    ensures r.Err? ==> r.error == InvalidString
    decreases |w|
  {
    if |w| == 0 then Ok("")
    else if !IsSurrogate(w[0]) then
      match Decode(w[1..])
      case Ok(s) => Ok([w[0] as char] + s)
      case Err(e) => Err(e)
    else if IsHighSurrogate(w[0]) && 1 < |w| && IsLowSurrogate(w[1]) then
      match Decode(w[2..])
      case Ok(s) => Ok([Combine(w[0], w[1])] + s)
      case Err(e) => Err(e)
    else
      Err(InvalidString)
  }

  /** The UTF-16 code units of one scalar value. */
  function EncodeChar(c: char): (r: seq<u16>)
  {
    if c as int < 0x1_0000 then [c as int]
    else
      var v := c as int - 0x1_0000;
      [0xD800 + v / 0x400, 0xDC00 + v % 0x400]
  }

  /** `encode_wide`: the UTF-16 code units of a string. */
  function Encode(s: string): (r: seq<u16>)
    ensures |s| <= |r| <= 2 * |s|
    decreases |s|
  {
    if s == [] then [] else EncodeChar(s[0]) + Encode(s[1..])
  }

  /** A string of the Basic Multilingual Plane encodes unit for char. */
  lemma {:induction false} EncodeBmp(s: string)
    requires forall i :: 0 <= i < |s| ==> s[i] as int < 0x1_0000
    ensures Encode(s) == seq(|s|, i requires 0 <= i < |s| => s[i] as int)
    decreases |s|
  {
    if s != [] {
      EncodeBmp(s[1..]);
    }
  }

  /** Decoding the encoding of a string gives the string back. */
  lemma {:induction false} DecodeEncode(s: string)
    ensures Decode(Encode(s)) == Ok(s)
    decreases |s|
  {
    if s != [] {
      DecodeEncode(s[1..]);
      var e, rest := EncodeChar(s[0]), Encode(s[1..]);
      var w := e + rest;
      assert Encode(s) == w;
      assert s == [s[0]] + s[1..];
      if s[0] as int < 0x1_0000 {
        assert w[1..] == rest;
        assert !IsSurrogate(w[0]);
        assert w[0] as char == s[0];
        assert Decode(w) == Ok([s[0]] + s[1..]);
      } else {
        assert w[2..] == rest;
        var v := s[0] as int - 0x1_0000;
        assert Combine(w[0], w[1]) as int == 0x1_0000 + (v / 0x400) * 0x400 + v % 0x400;
      }
    }
  }

  /** A successful decoding loses nothing: encoding its result gives the input back. */
  lemma {:induction false} EncodeDecode(w: seq<u16>)
    requires Decode(w).Ok?
    ensures Encode(Decode(w).value) == w
    decreases |w|
  {
    if |w| > 0 {
      var s := Decode(w).value;
      if !IsSurrogate(w[0]) {
        EncodeDecode(w[1..]);
        assert s == [w[0] as char] + Decode(w[1..]).value;
        assert w == [w[0]] + w[1..];
      } else {
        EncodeDecode(w[2..]);
        var c := Combine(w[0], w[1]);
        assert s == [c] + Decode(w[2..]).value;
        assert EncodeChar(c) == w[..2];
        assert w == w[..2] + w[2..];
      }
    }
  }

  /** Decoding succeeds exactly on well-formed input. */
  lemma {:induction false} DecodeOkIffWellFormed(w: seq<u16>)
    ensures Decode(w).Ok? <==> WellFormed(w)
    decreases |w|
  {
    if |w| == 0 {
    } else if !IsSurrogate(w[0]) {
      DecodeOkIffWellFormed(w[1..]);
      WellFormedTail(w, 1);
    } else if IsHighSurrogate(w[0]) && 1 < |w| && IsLowSurrogate(w[1]) {
      DecodeOkIffWellFormed(w[2..]);
      WellFormedTail(w, 2);
    } else {
      assert !WellFormed(w) by {
        if IsHighSurrogate(w[0]) {
          assert !(1 < |w| && IsLowSurrogate(w[1]));
        } else {
          assert IsLowSurrogate(w[0]);
        }
      }
    }
  }

  /** Cutting off a leading unit that is not a surrogate, or a leading pair,
      neither makes nor breaks well-formedness. */
  lemma WellFormedTail(w: seq<u16>, k: nat)
    requires k == 1 || k == 2
    requires k <= |w|
    requires k == 1 ==> !IsSurrogate(w[0])
    requires k == 2 ==> IsHighSurrogate(w[0]) && IsLowSurrogate(w[1])
    ensures WellFormed(w) <==> WellFormed(w[k..])
  {
    var t := w[k..];
    if WellFormed(t) {
      forall i | 0 <= i < |w| && IsHighSurrogate(w[i])
        ensures i + 1 < |w| && IsLowSurrogate(w[i + 1])
      {
        if i >= k { assert t[i - k] == w[i]; assert t[i - k + 1] == w[i + 1]; }
      }
      forall i | 0 <= i < |w| && IsLowSurrogate(w[i])
        ensures 0 < i && IsHighSurrogate(w[i - 1])
      {
        if i >= k {
          assert t[i - k] == w[i];
          if i - k == 0 { assert false; }
          assert t[i - k - 1] == w[i - 1];
        }
      }
    }
    if WellFormed(w) {
      forall i | 0 <= i < |t| && IsHighSurrogate(t[i])
        ensures i + 1 < |t| && IsLowSurrogate(t[i + 1])
      {
        assert w[i + k] == t[i];
      }
      forall i | 0 <= i < |t| && IsLowSurrogate(t[i])
        ensures 0 < i && IsHighSurrogate(t[i - 1])
      {
        assert w[i + k] == t[i];
        assert IsHighSurrogate(w[i + k - 1]);
        if i == 0 { assert false; }
        assert w[i + k - 1] == t[i - 1];
      }
    }
  }

  /** A decoded string holds a NUL character exactly where the units hold 0. */
  lemma {:induction false} DecodeNul(w: seq<u16>)
    requires Decode(w).Ok?
    ensures '\0' in Decode(w).value <==> 0 in w
    decreases |w|
  {
    if |w| > 0 {
      if !IsSurrogate(w[0]) {
        DecodeNul(w[1..]);
        assert w == [w[0]] + w[1..];
      } else {
        DecodeNul(w[2..]);
        assert w == [w[0], w[1]] + w[2..];
      }
    }
  }
}

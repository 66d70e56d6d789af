/** The conversions between UTF-16 and WTF-8 of cli/loader_win_utils.c. */
module Wtf8 {
  import opened Bits

  /* WTF-8 encodes lone surrogates like any other code point, so every array of 16-bit units has a byte
  form.  Strings end with a NUL; the sequences below include it.  The methods mask and join bits as the
  source does; the functions they are proved against do arithmetic with quotients and remainders. */

  datatype Option<T> = None | Some(value: T)

  /** A NUL-terminated string of units below `limit`. */
  ghost predicate IsString(s: seq<nat>, limit: nat) {
    && |s| > 0 && s[|s| - 1] == 0
    && (forall i :: 0 <= i < |s| - 1 ==> s[i] != 0)
    && Below(s, limit)
  }

  ghost predicate Below(s: seq<nat>, limit: nat) {
    forall i :: 0 <= i < |s| ==> s[i] < limit
  }

  /** The value at i can be read: it is a unit, and a unit follows unless it is the NUL. */
  ghost predicate Readable(w: seq<nat>, i: nat) {
    i < |w| && (i + 1 < |w| || w[i] == 0) && Below(w, 0x1_0000)
  }

  // ---------------------------------------------------------------- masks

  lemma ContinuationMask(b: nat)
    requires b < 0x100
    ensures And(b, 0xC0) == 0x80 <==> Continues(b)
  {
    hide And, Pow2;
    SmallPowers();
    AndHigh(b, 8, 6);
    TopBits(b);
  }

  lemma TopBits(b: nat)
    ensures b - b % 64 == 0x80 <==> b / 64 == 2
  {
  }

  /** The low six bits, alone, below others, and as a continuation byte. */
  lemma SixBitMask(high: nat, x: nat)
    ensures And(x, 0x3F) == x % 64
    ensures Or(high * 64, And(x, 0x3F)) == high * 64 + x % 64
    ensures Or(0x80, And(x, 0x3F)) == 0x80 + x % 64
  {
    hide And, Or, Pow2;
    SmallPowers();
    AndOnes(x, 6);
    OrDisjoint(high, x % 64, 6);
    OrDisjoint(2, x % 64, 6);
  }

  lemma LeadMask(x: nat)
    ensures x < 32 ==> Or(0xC0, x) == 0xC0 + x
    ensures x < 16 ==> Or(0xE0, x) == 0xE0 + x
    ensures x < 8 ==> Or(0xF0, x) == 0xF0 + x
  {
    hide Or;
    assert Pow2(5) == 32 && Pow2(4) == 16 && Pow2(3) == 8;
    if x < 32 { OrDisjoint(6, x, 5); }
    if x < 16 { OrDisjoint(14, x, 4); }
    if x < 8 { OrDisjoint(30, x, 3); }
  }

  lemma CodePointMask(x: nat)
    ensures And(x, 0x3FF) == x % 0x400 && And(x, 0x7FF) == x % 0x800
    ensures And(x, 0xFFFF) == x % 0x1_0000 && And(x, 0x1F_FFFF) == x % 0x20_0000
  {
    hide And, Pow2;
    Widths();
    AndOnes(x, 10);
    AndOnes(x, 11);
    AndOnes(x, 16);
    AndOnes(x, 21);
  }

  lemma Widths()
    ensures Pow2(10) == 0x400 && Pow2(11) == 0x800 && Pow2(16) == 0x1_0000 && Pow2(21) == 0x20_0000
  {
    hide Pow2;
    SmallPowers();
    Pow2Values();
    Pow2Add(8, 2);
    Pow2Add(10, 1);
    Pow2Add(11, 10);
  }

  // ---------------------------------------------------------------- one code point

  /** get_surrogate_value */
  function SurrogateValue(w: seq<nat>, i: nat): (cp: nat)
    requires Readable(w, i)
    ensures cp <= 0x10_FFFF && (cp == 0 <==> w[i] == 0)
    ensures cp >= 0x1_0000 ==> i + 1 < |w| && w[i + 1] != 0
  {
    var u := w[i];
    if 0xD800 <= u <= 0xDBFF && 0xDC00 <= w[i + 1] <= 0xDFFF then
      0x1_0000 + (u - 0xD800) * 1024 + (w[i + 1] - 0xDC00)
    else u
  }

  /** The units of a code point. */
  function Units(cp: nat): (u: seq<nat>)
    requires cp <= 0x10_FFFF
    ensures |u| == if cp > 0xFFFF then 2 else 1
  {
    if cp > 0xFFFF then [(cp - 0x1_0000) / 1024 + 0xD800, (cp - 0x1_0000) % 1024 + 0xDC00] else [cp]
  }

  /** The bytes of a code point: section 3 of RFC 3629, extended to surrogates. */
  function Encode(cp: nat): (b: seq<nat>)
    requires cp <= 0x10_FFFF
    ensures |b| == Length(cp)
    ensures forall k :: 0 <= k < |b| ==> b[k] < 0x100 && (cp != 0 ==> b[k] != 0)
  {
    if cp < 0x80 then [cp]
    else if cp < 0x800 then [0xC0 + cp / 64, 0x80 + cp % 64]
    else if cp < 0x1_0000 then [0xE0 + cp / 4096, 0x80 + cp / 64 % 64, 0x80 + cp % 64]
    else [0xF0 + cp / 0x4_0000, 0x80 + cp / 4096 % 64, 0x80 + cp / 64 % 64, 0x80 + cp % 64]
  }

  function Length(cp: nat): nat {
    if cp < 0x80 then 1 else if cp < 0x800 then 2 else if cp < 0x1_0000 then 3 else 4
  }

  /** The examples of section 7 of RFC 3629, the first character of each, and a lone surrogate. */
  lemma Examples()
    ensures Encode(0x2262) == [0xE2, 0x89, 0xA2] && Encode(0x391) == [0xCE, 0x91] && Encode(0x2E) == [0x2E]
    ensures Encode(0xD55C) == [0xED, 0x95, 0x9C] && Encode(0x65E5) == [0xE6, 0x97, 0xA5]
    ensures Encode(0x2_33B4) == [0xF0, 0xA3, 0x8E, 0xB4] && Units(0x2_33B4) == [0xD84C, 0xDFB4]
    ensures Encode(0xD800) == [0xED, 0xA0, 0x80] && Units(0xD800) == [0xD800]
  {
  }

  predicate Continues(b: nat) { b / 64 == 2 }

  /** wtf8_decode1, read from position i: the code point, if there is one, and the last position read. */
  function DecodeAt(s: seq<nat>, i: nat): (r: (Option<nat>, nat))
    requires i < |s| && s[|s| - 1] == 0
    ensures i <= r.1 < |s|
    ensures r.0.Some? ==> r.0.value <= 0x10_FFFF
  {
    var b1 := s[i];
    if b1 <= 0x7F then (Some(b1), i)
    else if b1 < 0xC2 then (None, i)
    else
      var b2 := s[i + 1];
      if !Continues(b2) then (None, i + 1)
      else if b1 <= 0xDF then (Some((b1 * 64 + b2 % 64) % 0x800), i + 1)
      else
        var b3 := s[i + 2];
        if !Continues(b3) then (None, i + 2)
        else if b1 <= 0xEF then (Some(((b1 * 64 + b2 % 64) * 64 + b3 % 64) % 0x1_0000), i + 2)
        else
          var b4 := s[i + 3];
          if !Continues(b4) then (None, i + 3)
          else
            var cp := (((b1 * 64 + b2 % 64) * 64 + b3 % 64) * 64 + b4 % 64) % 0x20_0000;
            if b1 <= 0xF4 && cp <= 0x10_FFFF then (Some(cp), i + 3) else (None, i + 3)
  }

  lemma SixBits(cp: nat)
    ensures cp == cp / 64 * 64 + cp % 64
    ensures cp / 64 == cp / 4096 * 64 + cp / 64 % 64
    ensures cp / 4096 == cp / 0x4_0000 * 64 + cp / 4096 % 64
    ensures (0x80 + cp % 64) % 64 == cp % 64 && (0x80 + cp % 64) / 64 == 2
  {
  }

  lemma TwoBytes(cp: nat, h: nat, l: nat)
    requires cp < 0x800 && cp == h * 64 + l && l < 64
    ensures ((0xC0 + h) * 64 + l) % 0x800 == cp
  {
    DivModUnique((0xC0 + h) * 64 + l, 0x800, 6, cp);
  }

  lemma ThreeBytes(cp: nat, h: nat, m: nat, l: nat)
    requires cp < 0x1_0000 && cp == (h * 64 + m) * 64 + l && m < 64 && l < 64
    ensures (((0xE0 + h) * 64 + m) * 64 + l) % 0x1_0000 == cp
  {
    DivModUnique(((0xE0 + h) * 64 + m) * 64 + l, 0x1_0000, 14, cp);
  }

  lemma FourBytes(cp: nat, h: nat, m: nat, n: nat, l: nat)
    requires cp < 0x20_0000 && cp == ((h * 64 + m) * 64 + n) * 64 + l && m < 64 && n < 64 && l < 64
    ensures ((((0xF0 + h) * 64 + m) * 64 + n) * 64 + l) % 0x20_0000 == cp
  {
    DivModUnique((((0xF0 + h) * 64 + m) * 64 + n) * 64 + l, 0x20_0000, 30, cp);
  }

  lemma Reads2(s: seq<nat>, i: nat, cp: nat)
    requires 0x80 <= cp < 0x800 && i + 1 < |s| && s[|s| - 1] == 0
    requires s[i] == 0xC0 + cp / 64 && s[i + 1] == 0x80 + cp % 64
    ensures DecodeAt(s, i) == (Some(cp), i + 1)
  {
    SixBits(cp);
    TwoBytes(cp, cp / 64, cp % 64);
  }

  lemma Reads3(s: seq<nat>, i: nat, cp: nat)
    requires 0x800 <= cp < 0x1_0000 && i + 2 < |s| && s[|s| - 1] == 0
    requires s[i] == 0xE0 + cp / 4096 && s[i + 1] == 0x80 + cp / 64 % 64 && s[i + 2] == 0x80 + cp % 64
    ensures DecodeAt(s, i) == (Some(cp), i + 2)
  {
    SixBits(cp);
    SixBits(cp / 64);
    ThreeBytes(cp, cp / 4096, cp / 64 % 64, cp % 64);
  }

  lemma Reads4(s: seq<nat>, i: nat, cp: nat)
    requires 0x1_0000 <= cp <= 0x10_FFFF && i + 3 < |s| && s[|s| - 1] == 0
    requires s[i] == 0xF0 + cp / 0x4_0000 && s[i + 1] == 0x80 + cp / 4096 % 64
    requires s[i + 2] == 0x80 + cp / 64 % 64 && s[i + 3] == 0x80 + cp % 64
    ensures DecodeAt(s, i) == (Some(cp), i + 3)
  {
    SixBits(cp);
    SixBits(cp / 64);
    SixBits(cp / 4096);
    FourBytes(cp, cp / 0x4_0000, cp / 4096 % 64, cp / 64 % 64, cp % 64);
  }

  /** Decoding what was encoded, wherever it stands, gives the code point back and ends at its last
  byte. */
  lemma DecodeEncoded(s: seq<nat>, i: nat, cp: nat)
    requires cp <= 0x10_FFFF && i + Length(cp) <= |s| && s[|s| - 1] == 0
    requires s[i..i + Length(cp)] == Encode(cp)
    ensures DecodeAt(s, i) == (Some(cp), i + Length(cp) - 1)
  {
    var b := s[i..i + Length(cp)];
    assert b[0] == s[i];
    if cp < 0x80 {
    } else if cp < 0x800 {
      assert b[1] == s[i + 1];
      hide DecodeAt;
      Reads2(s, i, cp);
    } else if cp < 0x1_0000 {
      assert b[1] == s[i + 1] && b[2] == s[i + 2];
      hide DecodeAt;
      Reads3(s, i, cp);
    } else {
      assert b[1] == s[i + 1] && b[2] == s[i + 2] && b[3] == s[i + 3];
      hide DecodeAt;
      Reads4(s, i, cp);
    }
  }

  /** A surrogate pair is taken apart again into the two units it was read from: section 2.1 of RFC 2781. */
  lemma UnitsOfValue(w: seq<nat>, i: nat)
    requires Readable(w, i)
    ensures var u := Units(SurrogateValue(w, i));
      i + |u| <= |w| && u == w[i..i + |u|]
  {
  }

  // ---------------------------------------------------------------- whole strings

  /** How many units a code point takes. */
  function Step(cp: nat): nat { if cp >= 0x1_0000 then 2 else 1 }

  /** What wchar_to_utf8 makes of the string that starts at i. */
  function ToUtf8(w: seq<nat>, i: nat): (b: seq<nat>)
    requires IsString(w, 0x1_0000) && i < |w|
    ensures |b| > 0 && b[|b| - 1] == 0
    decreases |w| - i
  {
    var cp := SurrogateValue(w, i);
    if cp == 0 then [0] else Encode(cp) + ToUtf8(w, i + Step(cp))
  }

  /** What utf8_to_wchar makes of the string that starts at i: the units, or nothing if some byte is
  out of place. */
  function FromUtf8(s: seq<nat>, i: nat): (w: Option<seq<nat>>)
    requires i < |s| && s[|s| - 1] == 0
    decreases |s| - i
  {
    var (cp, j) := DecodeAt(s, i);
    if cp.None? then None
    else if s[j] == 0 then Some(Units(cp.value))
    else if j + 1 >= |s| then assert false; None
    else
      var rest := FromUtf8(s, j + 1);
      if rest.None? then None else Some(Units(cp.value) + rest.value)
  }

  lemma Between(before: seq<nat>, e: seq<nat>, rest: seq<nat>)
    requires |e| > 0
    ensures var s := before + (e + rest);
      s == before + e + rest && s[|before|..|before| + |e|] == e && s[|before| + |e| - 1] == e[|e| - 1]
  {
  }

  /** One code point is read, and reading goes on behind it. */
  lemma ReadsOne(s: seq<nat>, i: nat, cp: nat)
    requires 0 < cp <= 0x10_FFFF && i + Length(cp) < |s| && s[|s| - 1] == 0
    requires s[i..i + Length(cp)] == Encode(cp)
    ensures var rest := FromUtf8(s, i + Length(cp));
      FromUtf8(s, i) == if rest.None? then None else Some(Units(cp) + rest.value)
  {
    hide DecodeAt, Encode;
    DecodeEncoded(s, i, cp);
    assert s[i + Length(cp) - 1] == Encode(cp)[Length(cp) - 1];
  }

  lemma ToUtf8Next(w: seq<nat>, i: nat)
    requires IsString(w, 0x1_0000) && i < |w|
    ensures Readable(w, i)
    ensures w[i] != 0 ==>
      var cp := SurrogateValue(w, i);
      i + Step(cp) < |w| && |ToUtf8(w, i)| == Length(cp) + |ToUtf8(w, i + Step(cp))|
    ensures var cp := SurrogateValue(w, i);
      && (w[i] == 0 ==> ToUtf8(w, i) == [0])
      && (w[i] != 0 ==>
            cp != 0 && i + Step(cp) < |w| && ToUtf8(w, i) == Encode(cp) + ToUtf8(w, i + Step(cp)) && Units(cp) + w[i + Step(cp)..] == w[i..])
  {
    hide Encode, SurrogateValue, Units;
    UnitsOfValue(w, i);
    var cp := SurrogateValue(w, i);
    if w[i] != 0 {
      assert i + Step(cp) < |w|;
      assert w[i..] == w[i..i + Step(cp)] + w[i + Step(cp)..];
    }
  }

  lemma JoinStrings(e: seq<nat>, rest: seq<nat>)
    requires IsString(rest, 0x100) && Below(e, 0x100) && forall k :: 0 <= k < |e| ==> e[k] != 0
    ensures IsString(e + rest, 0x100)
  {
  }

  /** The byte form of a string is a string: no NUL but the last byte. */
  lemma {:induction false} BytesAreString(w: seq<nat>, i: nat)
    requires IsString(w, 0x1_0000) && i < |w|
    ensures IsString(ToUtf8(w, i), 0x100)
    decreases |w| - i
  {
    hide IsString, ToUtf8, SurrogateValue, Encode, Readable, Units, Below;
    ToUtf8Next(w, i);
    if w[i] == 0 {
      OnlyNul();
    } else {
      var cp := SurrogateValue(w, i);
      BytesAreString(w, i + Step(cp));
      BytesBelow(cp);
      JoinStrings(Encode(cp), ToUtf8(w, i + Step(cp)));
    }
  }

  lemma OnlyNul()
    ensures IsString([0], 0x100)
  {
  }

  lemma BytesBelow(cp: nat)
    requires cp <= 0x10_FFFF
    ensures Below(Encode(cp), 0x100)
  {
  }

  /** utf8_to_wchar undoes wchar_to_utf8, lone surrogates included. */
  lemma {:induction false} RoundTrip(w: seq<nat>, i: nat, before: seq<nat>)
    requires IsString(w, 0x1_0000) && i < |w|
    ensures FromUtf8(before + ToUtf8(w, i), |before|) == Some(w[i..])
    decreases |w| - i
  {
    hide SurrogateValue, Encode, DecodeAt, Units, ToUtf8, FromUtf8, Readable, Below, IsString;
    ToUtf8Next(w, i);
    if w[i] == 0 {
      AtEnd(w, i, before);
    } else {
      var cp := SurrogateValue(w, i);
      var rest := ToUtf8(w, i + Step(cp));
      Between(before, Encode(cp), rest);
      RoundTrip(w, i + Step(cp), before + Encode(cp));
      ReadsOne(before + ToUtf8(w, i), |before|, cp);
    }
  }

  lemma AtEnd(w: seq<nat>, i: nat, before: seq<nat>)
    requires IsString(w, 0x1_0000) && i < |w| && w[i] == 0
    ensures FromUtf8(before + [0], |before|) == Some(w[i..])
  {
    assert w[i..] == [0];
  }

  // ---------------------------------------------------------------- the conversions

  /** The bytes of one code point are written from position p on. */
  method Put(target: array<nat>, p: nat, cp: nat) returns (p': nat)
    requires cp <= 0x10_FFFF && p + Length(cp) <= target.Length
    modifies target
    ensures p' == p + Length(cp) && target[..p'] == old(target[..p]) + Encode(cp)
  {
    hide And, Or;
    LeadMask(cp / 64);
    LeadMask(cp / 4096);
    LeadMask(cp / 0x4_0000);
    SixBitMask(0, cp);
    SixBitMask(0, cp / 64);
    SixBitMask(0, cp / 4096);
    p' := p;
    if cp < 0x80 {
      target[p'] := cp; p' := p' + 1;
    } else if cp < 0x800 {
      target[p'] := Or(0xC0, cp / 64); p' := p' + 1;
      target[p'] := Or(0x80, And(cp, 0x3F)); p' := p' + 1;
    } else if cp < 0x1_0000 {
      target[p'] := Or(0xE0, cp / 4096); p' := p' + 1;
      target[p'] := Or(0x80, And(cp / 64, 0x3F)); p' := p' + 1;
      target[p'] := Or(0x80, And(cp, 0x3F)); p' := p' + 1;
    } else {
      target[p'] := Or(0xF0, cp / 0x4_0000); p' := p' + 1;
      target[p'] := Or(0x80, And(cp / 4096, 0x3F)); p' := p' + 1;
      target[p'] := Or(0x80, And(cp / 64, 0x3F)); p' := p' + 1;
      target[p'] := Or(0x80, And(cp, 0x3F)); p' := p' + 1;
    }
  }

  lemma SameValue(wstr: seq<nat>, n: nat, i: nat)
    requires n < |wstr| && IsString(wstr[..n + 1], 0x1_0000) && i <= n && Below(wstr, 0x1_0000)
    ensures Readable(wstr, i) && Readable(wstr[..n + 1], i)
    ensures SurrogateValue(wstr, i) == SurrogateValue(wstr[..n + 1], i)
    ensures wstr[..n + 1][i] == wstr[i]
  {
    var w := wstr[..n + 1];
    assert w[n] == wstr[n] == 0 && w[i] == wstr[i];
    if i < n { assert w[i + 1] == wstr[i + 1]; }
  }

  /** The first pass of wchar_to_utf8: how many bytes there are before the NUL. */
  method CountBytes(wstr: array<nat>, ghost n: nat) returns (len: nat)
    requires n < wstr.Length && IsString(wstr[..n + 1], 0x1_0000) && Below(wstr[..], 0x1_0000)
    ensures len + 1 == |ToUtf8(wstr[..n + 1], 0)|
  {
    hide SurrogateValue, Encode, Units, ToUtf8, IsString, Readable, Below;
    ghost var w := wstr[..n + 1];
    var i: nat := 0;
    len := 0;
    while true
      invariant i <= n && len + |ToUtf8(w, i)| == |ToUtf8(w, 0)|
      decreases n - i
    {
      ToUtf8Next(w, i);
      SameValue(wstr[..], n, i);
      assert wstr[..][..n + 1] == w;
      var cp := SurrogateValue(wstr[..], i);
      if cp == 0 {
        break;
      }
      if cp < 0x80 {
        len := len + 1;
      } else if cp < 0x800 {
        len := len + 2;
      } else if cp < 0x1_0000 {
        len := len + 3;
      } else {
        len := len + 4;
        i := i + 1;
      }
      i := i + 1;
    }
  }

  /** The units before i are converted, into the first p bytes of a buffer that fits the rest. */
  ghost predicate Filled(w: seq<nat>, i: nat, target: seq<nat>, p: nat) {
    && IsString(w, 0x1_0000) && i < |w| && p + |ToUtf8(w, i)| == |target|
    && target[..p] + ToUtf8(w, i) == ToUtf8(w, 0)
  }

  lemma FilledStarts(w: seq<nat>, target: seq<nat>)
    requires IsString(w, 0x1_0000) && |ToUtf8(w, 0)| == |target|
    ensures Filled(w, 0, target, 0)
  {
    hide ToUtf8;
    assert target[..0] + ToUtf8(w, 0) == ToUtf8(w, 0);
  }

  lemma FilledNext(w: seq<nat>, i: nat, target: seq<nat>, p: nat, cp: nat)
    requires Filled(w, i, target, p) && w[i] != 0 && cp == SurrogateValue(w, i)
    ensures i + Step(cp) < |w| && p + Length(cp) <= |target|
    ensures forall t: seq<nat> :: |t| == |target| && t[..p + Length(cp)] == target[..p] + Encode(cp) ==>
      Filled(w, i + Step(cp), t, p + Length(cp))
  {
    hide SurrogateValue, Encode, Units, ToUtf8;
    ToUtf8Next(w, i);
    var rest := ToUtf8(w, i + Step(cp));
    assert target[..p] + (Encode(cp) + rest) == target[..p] + Encode(cp) + rest;
  }

  lemma FilledEnd(w: seq<nat>, i: nat, target: seq<nat>, p: nat)
    requires Filled(w, i, target, p) && w[i] == 0
    ensures p + 1 == |target| && target[..p] + [0] == ToUtf8(w, 0)
  {
    ToUtf8Next(w, i);
  }

  /** The second pass of wchar_to_utf8 fills exactly the buffer the first one measured. */
  method FillBytes(wstr: array<nat>, ghost n: nat, target: array<nat>) returns (p: nat)
    requires n < wstr.Length && wstr != target && Below(wstr[..], 0x1_0000)
    requires IsString(wstr[..n + 1], 0x1_0000) && target.Length == |ToUtf8(wstr[..n + 1], 0)|
    modifies target
    ensures p + 1 == target.Length && target[..p] + [0] == ToUtf8(wstr[..n + 1], 0)
  {
    hide SurrogateValue, Encode, Units, ToUtf8, Filled, IsString, Length, Below, Readable;
    ghost var all, w := wstr[..], wstr[..n + 1];
    assert w == all[..n + 1];
    FilledStarts(w, target[..]);
    var i: nat := 0;
    p := 0;
    while true
      invariant i <= n && wstr[..] == all && p <= target.Length && Filled(w, i, target[..], p)
      decreases n - i
    {
      SameValue(all, n, i);
      var cp := SurrogateValue(wstr[..], i);
      if cp == 0 {
        FilledEnd(w, i, target[..], p);
        break;
      }
      FilledNext(w, i, target[..], p, cp);
      ghost var before := target[..];
      assert before[..p] == target[..p];
      p := Put(target, p, cp);
      assert target[..][..p] == target[..p];
      if cp >= 0x1_0000 { i := i + 1; }
      i := i + 1;
    }
    assert target[..][..p] == target[..p];
  }

  /** wchar_to_utf8 */
  method WcharToUtf8(wstr: array<nat>, ghost n: nat) returns (target: array<nat>)
    requires n < wstr.Length && IsString(wstr[..n + 1], 0x1_0000) && Below(wstr[..], 0x1_0000)
    ensures fresh(target) && target[..] == ToUtf8(wstr[..n + 1], 0)
  {
    var len := CountBytes(wstr, n);
    target := new nat[len + 1];
    ghost var w := wstr[..n + 1];
    var p := FillBytes(wstr, n, target);
    target[p] := 0;
    assert target[..] == target[..p] + [0];
  }

  /** wtf8_decode1: the pointer moves to the last byte that was looked at. */
  method Decode1(str: array<nat>, ghost n: nat, i: nat) returns (cp: Option<nat>, j: nat)
    requires n < str.Length && IsString(str[..n + 1], 0x100) && i <= n
    ensures (cp, j) == DecodeAt(str[..n + 1], i)
  {
    hide And, Or;
    ghost var s := str[..n + 1];
    assert forall k :: 0 <= k <= n ==> s[k] == str[k];
    j := i;
    var b1 := str[j];
    if b1 <= 0x7F { return Some(b1), j; }
    if b1 < 0xC2 { return None, j; }
    var codePoint := b1;
    j := j + 1;
    var b2 := str[j];
    ContinuationMask(b2);
    if And(b2, 0xC0) != 0x80 { return None, j; }
    codePoint := NextSixBits(codePoint, b2);
    CodePointMask(codePoint);
    if b1 <= 0xDF { return Some(And(codePoint, 0x7FF)), j; }
    j := j + 1;
    var b3 := str[j];
    ContinuationMask(b3);
    if And(b3, 0xC0) != 0x80 { return None, j; }
    codePoint := NextSixBits(codePoint, b3);
    CodePointMask(codePoint);
    if b1 <= 0xEF { return Some(And(codePoint, 0xFFFF)), j; }
    j := j + 1;
    var b4 := str[j];
    ContinuationMask(b4);
    if And(b4, 0xC0) != 0x80 { return None, j; }
    codePoint := NextSixBits(codePoint, b4);
    CodePointMask(codePoint);
    if b1 <= 0xF4 {
      codePoint := And(codePoint, 0x1F_FFFF);
      if codePoint <= 0x10_FFFF { return Some(codePoint), j; }
    }
    return None, j;
  }

  /** `(code_point << 6) | (b & 0x3F)` */
  function NextSixBits(codePoint: nat, b: nat): (r: nat)
    ensures r == codePoint * 64 + b % 64
  {
    SixBitMask(codePoint, b);
    Or(codePoint * 64, And(b, 0x3F))
  }

  /** Reading s from i on, after the units in `prefix`, gives the result of reading all of s. */
  ghost predicate Reading(s: seq<nat>, i: nat, prefix: seq<nat>) {
    && IsString(s, 0x100) && i < |s|
    && FromUtf8(s, 0) == match FromUtf8(s, i) { case None => None case Some(w) => Some(prefix + w) }
  }

  lemma ReadingStarts(s: seq<nat>)
    requires IsString(s, 0x100)
    ensures Reading(s, 0, [])
  {
    if FromUtf8(s, 0).Some? { assert [] + FromUtf8(s, 0).value == FromUtf8(s, 0).value; }
  }

  /** One round of the loop: reading fails, ends, or goes on. */
  lemma ReadingNext(s: seq<nat>, i: nat, prefix: seq<nat>)
    requires Reading(s, i, prefix)
    ensures var (cp, j) := DecodeAt(s, i);
      && i <= j < |s|
      && (cp.None? ==> FromUtf8(s, 0) == None)
      && (cp.Some? && s[j] == 0 ==> FromUtf8(s, 0) == Some(prefix + Units(cp.value)))
      && (cp.Some? && s[j] != 0 ==> j + 1 < |s| && Reading(s, j + 1, prefix + Units(cp.value)))
  {
    hide DecodeAt, Units;
    var (cp, j) := DecodeAt(s, i);
    if cp.Some? && s[j] != 0 {
      assert j + 1 < |s|;
      var rest := FromUtf8(s, j + 1);
      if rest.Some? { assert prefix + (Units(cp.value) + rest.value) == prefix + Units(cp.value) + rest.value; }
    }
  }

  /** The first pass of utf8_to_wchar: how many units there are, with the NUL, or nothing. */
  method CountUnits(str: array<nat>, ghost n: nat) returns (len: Option<nat>)
    requires n < str.Length && IsString(str[..n + 1], 0x100)
    ensures match FromUtf8(str[..n + 1], 0) { case None => len == None case Some(w) => len == Some(|w|) }
  {
    ghost var s, prefix := str[..n + 1], [];
    ReadingStarts(s);
    hide DecodeAt, FromUtf8, Reading;
    var i: nat, count: nat := 0, 0;
    while true
      invariant i <= n && Reading(s, i, prefix) && count == |prefix|
      decreases n - i
    {
      ReadingNext(s, i, prefix);
      var cp, j := Decode1(str, n, i);
      if cp.None? {
        return None;
      }
      if cp.value > 0xFFFF { count := count + 1; }
      count := count + 1;
      prefix := prefix + Units(cp.value);
      assert s[j] == str[j];
      if str[j] == 0 {
        break;
      }
      i := j + 1;
    }
    len := Some(count);
  }

  /** The units of one code point are written from position p on. */
  method PutUnits(target: array<nat>, p: nat, cp: nat) returns (p': nat)
    requires cp <= 0x10_FFFF && p + |Units(cp)| <= target.Length
    modifies target
    ensures p' == p + |Units(cp)| && target[..p'] == old(target[..p]) + Units(cp)
  {
    hide And;
    p' := p;
    if cp > 0xFFFF {
      CodePointMask(cp - 0x1_0000);
      target[p'] := (cp - 0x1_0000) / 1024 + 0xD800; p' := p' + 1;
      target[p'] := And(cp - 0x1_0000, 0x3FF) + 0xDC00; p' := p' + 1;
    } else {
      target[p'] := cp; p' := p' + 1;
    }
  }

  /** The second pass: the units go to the buffer, which they fill exactly. */
  method FillUnits(str: array<nat>, ghost n: nat, target: array<nat>)
    requires n < str.Length && str != target && IsString(str[..n + 1], 0x100)
    requires FromUtf8(str[..n + 1], 0).Some? && target.Length == |FromUtf8(str[..n + 1], 0).value|
    modifies target
    ensures Some(target[..]) == FromUtf8(str[..n + 1], 0)
  {
    hide DecodeAt, FromUtf8, Reading, IsString, Units;
    ghost var s, prefix := str[..n + 1], [];
    ReadingStarts(s);
    var i: nat, p: nat := 0, 0;
    while true
      invariant i <= n && str[..n + 1] == s && Reading(s, i, prefix) && p == |prefix| <= target.Length && target[..p] == prefix
      decreases n - i
    {
      ReadingNext(s, i, prefix);
      var cp, j := Decode1(str, n, i);
      assert s[j] == str[j];
      if s[j] != 0 { ReadingRoom(s, j + 1, prefix + Units(cp.value)); }
      p := PutUnits(target, p, cp.value);
      prefix := prefix + Units(cp.value);
      if str[j] == 0 {
        break;
      }
      i := j + 1;
    }
    assert target[..p] == target[..];
  }

  lemma ReadingRoom(s: seq<nat>, i: nat, prefix: seq<nat>)
    requires Reading(s, i, prefix) && FromUtf8(s, 0).Some?
    ensures |prefix| <= |FromUtf8(s, 0).value|
  {
  }

  /** utf8_to_wchar */
  method Utf8ToWchar(str: array<nat>, ghost n: nat) returns (target: Option<array<nat>>)
    requires n < str.Length && IsString(str[..n + 1], 0x100)
    ensures match FromUtf8(str[..n + 1], 0)
            case None => target == None
            case Some(w) => target.Some? && fresh(target.value) && target.value[..] == w
  {
    var len := CountUnits(str, n);
    if len.None? {
      return None;
    }
    var buffer := new nat[len.value];
    FillUnits(str, n, buffer);
    target := Some(buffer);
  }
}

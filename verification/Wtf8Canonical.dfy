/** Which byte strings come back from UTF-16 (cli/loader_win_utils.c). */
module Wtf8Canonical {
  import opened Bits
  import opened Wtf8

  /* The decoder takes more than the encoder writes: three and four bytes where fewer would do, and the two
  halves of a surrogate pair encoded one by one. */

  /** Three or four bytes that start like a code point with a shorter form. */
  predicate Overlong(s: seq<nat>, k: nat) {
    k + 1 < |s| && ((s[k] == 0xE0 && s[k + 1] < 0xA0) || (s[k] == 0xF0 && s[k + 1] < 0x90))
  }

  /** A high surrogate in three bytes, and then a low one. */
  predicate SplitPair(s: seq<nat>, k: nat) {
    k + 4 < |s| && s[k] == 0xED && s[k + 1] / 16 == 0xA && s[k + 3] == 0xED && s[k + 4] / 16 == 0xB
  }

  predicate Clean(s: seq<nat>) {
    forall k :: 0 <= k < |s| ==> !Overlong(s, k) && !SplitPair(s, k)
  }

  predicate High(u: nat) { 0xD800 <= u <= 0xDBFF }

  predicate Low(u: nat) { 0xDC00 <= u <= 0xDFFF }

  /** Surrogates are told by their first two bytes. */
  lemma SurrogateBytes(cp: nat)
    requires cp < 0x1_0000
    ensures High(cp) <==> cp / 4096 == 0xD && (0x80 + cp / 64 % 64) / 16 == 0xA
    ensures Low(cp) <==> cp / 4096 == 0xD && (0x80 + cp / 64 % 64) / 16 == 0xB
  {
    var h, m, l := cp / 4096, cp / 64 % 64, cp % 64;
    SixBits(cp);
    assert cp == h * 4096 + m * 64 + l;
  }

  // ---------------------------------------------------------------- the encoder writes clean strings

  /** What the encoder writes for one code point is not overlong. */
  lemma EncodedShort(cp: nat)
    requires cp <= 0x10_FFFF
    ensures !Overlong(Encode(cp), 0)
    ensures forall k :: 1 <= k < |Encode(cp)| ==> Encode(cp)[k] < 0xC0
    ensures Encode(cp)[0] == 0xED ==> cp < 0x1_0000 && Length(cp) == 3 && cp / 4096 == 0xD && Encode(cp)[1] == 0x80 + cp / 64 % 64
  {
  }

  /** The bytes of one code point before a clean string: only a pair can spoil it. */
  lemma CleanJoined(cp: nat, rest: seq<nat>)
    requires cp <= 0x10_FFFF && Clean(rest) && |rest| > 0
    requires High(cp) && |rest| > 1 ==> !(rest[0] == 0xED && rest[1] / 16 == 0xB)
    ensures Clean(Encode(cp) + rest)
  {
    EncodedShort(cp);
    if cp < 0x1_0000 { SurrogateBytes(cp); }
    var e := Encode(cp);
    var s := e + rest;
    hide Encode;
    forall k | 0 <= k < |s| ensures !Overlong(s, k) && !SplitPair(s, k) {
      if k >= |e| {
        assert !Overlong(rest, k - |e|) && !SplitPair(rest, k - |e|);
      } else {
        assert s[k] == e[k];
        if k == 0 && |e| > 1 { assert s[1] == e[1]; }
      }
    }
  }

  /** The string that starts with a low surrogate is told by its first bytes. */
  lemma StartsLow(w: seq<nat>, i: nat)
    requires IsString(w, 0x1_0000) && i < |w|
    requires var b := ToUtf8(w, i); |b| > 1 && b[0] == 0xED && b[1] / 16 == 0xB
    ensures Low(w[i])
  {
    hide Encode, ToUtf8;
    ToUtf8Next(w, i);
    var cp := SurrogateValue(w, i);
    EncodedShort(cp);
    var e := Encode(cp);
    assert ToUtf8(w, i)[0] == e[0];
    assert ToUtf8(w, i)[1] == e[1];
    SurrogateBytes(cp);
  }

  /** A high surrogate that stands alone is not followed by a low one. */
  lemma NotSplit(w: seq<nat>, i: nat)
    requires IsString(w, 0x1_0000) && i + 1 < |w| && Readable(w, i) && High(SurrogateValue(w, i))
    ensures var rest := ToUtf8(w, i + 1);
      |rest| > 1 ==> !(rest[0] == 0xED && rest[1] / 16 == 0xB)
  {
    hide ToUtf8;
    var rest := ToUtf8(w, i + 1);
    if |rest| > 1 && rest[0] == 0xED && rest[1] / 16 == 0xB {
      StartsLow(w, i + 1);
      assert false;
    }
  }

  lemma {:induction false} EncodedClean(w: seq<nat>, i: nat)
    requires IsString(w, 0x1_0000) && i < |w|
    ensures Clean(ToUtf8(w, i))
    decreases |w| - i
  {
    hide Encode, ToUtf8, SurrogateValue, Clean, Units, IsString, Readable;
    ToUtf8Next(w, i);
    if w[i] == 0 {
      CleanEnd();
    } else {
      var cp := SurrogateValue(w, i);
      EncodedClean(w, i + Step(cp));
      if High(cp) { NotSplit(w, i); }
      CleanJoined(cp, ToUtf8(w, i + Step(cp)));
    }
  }

  lemma CleanEnd()
    ensures Clean([0])
  {
  }

  // ---------------------------------------------------------------- clean strings come back

  lemma Short2(b1: nat, b2: nat)
    requires 0xC2 <= b1 <= 0xDF && Continues(b2)
    ensures var cp := (b1 * 64 + b2 % 64) % 0x800; 0x80 <= cp < 0x800 && Encode(cp) == [b1, b2]
  {
    var cp := (b1 - 0xC0) * 64 + b2 % 64;
    DivModUnique(b1 * 64 + b2 % 64, 0x800, 6, cp);
  }

  lemma Short3(b1: nat, b2: nat, b3: nat)
    requires 0xE0 <= b1 <= 0xEF && Continues(b2) && Continues(b3)
    requires b1 == 0xE0 ==> b2 >= 0xA0
    ensures var cp := ((b1 * 64 + b2 % 64) * 64 + b3 % 64) % 0x1_0000; 0x800 <= cp < 0x1_0000 && Encode(cp) == [b1, b2, b3]
  {
    var h, m, l: nat := b1 - 0xE0, b2 % 64, b3 % 64;
    var cp := (h * 64 + m) * 64 + l;
    ThreeBytes(cp, h, m, l);
    DivModUnique(cp, 64, h * 64 + m, l);
    DivModUnique(h * 64 + m, 64, h, m);
    DivModUnique(cp, 4096, h, m * 64 + l);
  }

  lemma Short4(b1: nat, b2: nat, b3: nat, b4: nat)
    requires 0xF0 <= b1 <= 0xF4 && Continues(b2) && Continues(b3) && Continues(b4)
    requires b1 == 0xF0 ==> b2 >= 0x90
    ensures var cp := (((b1 * 64 + b2 % 64) * 64 + b3 % 64) * 64 + b4 % 64) % 0x20_0000;
      cp >= 0x1_0000 && (cp <= 0x10_FFFF ==> Encode(cp) == [b1, b2, b3, b4])
  {
    var h, m, n, l: nat := b1 - 0xF0, b2 % 64, b3 % 64, b4 % 64;
    var cp := ((h * 64 + m) * 64 + n) * 64 + l;
    FourBytes(cp, h, m, n, l);
    DivModUnique(cp, 64, (h * 64 + m) * 64 + n, l);
    DivModUnique((h * 64 + m) * 64 + n, 64, h * 64 + m, n);
    DivModUnique(cp, 4096, h * 64 + m, n * 64 + l);
    DivModUnique(h * 64 + m, 64, h, m);
    DivModUnique(cp, 0x4_0000, h, (m * 64 + n) * 64 + l);
  }

  lemma Decoded2(s: seq<nat>, i: nat)
    requires IsString(s, 0x100) && i < |s| && DecodeAt(s, i).0.Some? && 0x7F < s[i] <= 0xDF
    ensures var (cp, j) := DecodeAt(s, i);
      j == i + 1 && Length(cp.value) == 2 && s[i..i + 2] == Encode(cp.value)
  {
    hide Encode, Continues;
    Short2(s[i], s[i + 1]);
  }

  lemma Decoded3(s: seq<nat>, i: nat)
    requires IsString(s, 0x100) && i < |s| && DecodeAt(s, i).0.Some? && 0xDF < s[i] <= 0xEF && !Overlong(s, i)
    ensures var (cp, j) := DecodeAt(s, i);
      j == i + 2 && Length(cp.value) == 3 && s[i..i + 3] == Encode(cp.value)
  {
    hide Encode, Continues;
    Short3(s[i], s[i + 1], s[i + 2]);
  }

  lemma Decoded4(s: seq<nat>, i: nat)
    requires IsString(s, 0x100) && i < |s| && DecodeAt(s, i).0.Some? && 0xEF < s[i] && !Overlong(s, i)
    ensures var (cp, j) := DecodeAt(s, i);
      j == i + 3 && Length(cp.value) == 4 && s[i..i + 4] == Encode(cp.value)
  {
    hide Encode, Continues;
    Short4(s[i], s[i + 1], s[i + 2], s[i + 3]);
  }

  /** A code point that was read from bytes that are not overlong is written as these bytes. */
  lemma DecodedShort(s: seq<nat>, i: nat)
    requires IsString(s, 0x100) && i < |s| && DecodeAt(s, i).0.Some? && !Overlong(s, i)
    ensures var (cp, j) := DecodeAt(s, i);
      j + 1 == i + Length(cp.value) && s[i..j + 1] == Encode(cp.value)
  {
    if s[i] <= 0x7F {
    } else {
      hide DecodeAt, Encode;
      if s[i] <= 0xDF {
        Decoded2(s, i);
      } else if s[i] <= 0xEF {
        Decoded3(s, i);
      } else {
        Decoded4(s, i);
      }
    }
  }

  lemma SameValueAhead(w: seq<nat>, i: nat, v: seq<nat>, j: nat)
    requires Readable(w, i) && Readable(v, j) && w[i..] == v[j..]
    ensures w[i] == v[j] && SurrogateValue(w, i) == SurrogateValue(v, j)
  {
    assert w[i] == w[i..][0] == v[j];
    if w[i] != 0 {
      assert w[i + 1] == w[i..][1] == v[j..][1] == v[j + 1];
    }
  }

  lemma DropMore(w: seq<nat>, i: nat, v: seq<nat>, j: nat, d: nat)
    requires i + d <= |w| && j + d <= |v| && w[i..] == v[j..]
    ensures w[i + d..] == v[j + d..]
  {
    assert w[i + d..] == w[i..][d..];
    assert v[j + d..] == v[j..][d..];
  }

  /** Encoding looks only at what lies ahead. */
  lemma {:induction false} SameAhead(w: seq<nat>, i: nat, v: seq<nat>, j: nat)
    requires IsString(w, 0x1_0000) && IsString(v, 0x1_0000) && i < |w| && j < |v| && w[i..] == v[j..]
    ensures ToUtf8(w, i) == ToUtf8(v, j)
    decreases |w| - i
  {
    hide Encode, ToUtf8, SurrogateValue, Units, IsString, Readable;
    ToUtf8Next(w, i);
    ToUtf8Next(v, j);
    SameValueAhead(w, i, v, j);
    if w[i] != 0 {
      var d := Step(SurrogateValue(w, i));
      DropMore(w, i, v, j, d);
      SameAhead(w, i + d, v, j + d);
    }
  }

  lemma UnitsRange(cp: nat)
    requires cp <= 0x10_FFFF
    ensures Below(Units(cp), 0x1_0000)
    ensures forall k :: 0 <= k < |Units(cp)| ==> Units(cp)[k] == 0 ==> cp == 0
  {
  }

  /** One code point before a string is written first, unless the two read as a pair. */
  lemma EncodeFirst(cp: nat, rest: seq<nat>)
    requires 0 < cp <= 0x10_FFFF && IsString(rest, 0x1_0000) && !(High(cp) && Low(rest[0]))
    ensures IsString(Units(cp) + rest, 0x1_0000)
    ensures ToUtf8(Units(cp) + rest, 0) == Encode(cp) + ToUtf8(rest, 0)
  {
    hide Encode, ToUtf8, SurrogateValue;
    var w := Units(cp) + rest;
    UnitsRange(cp);
    assert IsString(w, 0x1_0000);
    FirstValue(cp, rest);
    ToUtf8Next(w, 0);
    assert w[Step(cp)..] == rest == rest[0..];
    SameAhead(w, Step(cp), rest, 0);
  }

  lemma FirstValue(cp: nat, rest: seq<nat>)
    requires 0 < cp <= 0x10_FFFF && |rest| > 0 && Readable(Units(cp) + rest, 0) && !(High(cp) && Low(rest[0]))
    ensures SurrogateValue(Units(cp) + rest, 0) == cp
  {
    if cp > 0xFFFF {
      var h, l := (cp - 0x1_0000) / 1024, (cp - 0x1_0000) % 1024;
      assert cp == 0x1_0000 + h * 1024 + l;
    }
  }

  /** The first unit that is read tells a low surrogate from its bytes. */
  lemma ReadsLow(s: seq<nat>, i: nat)
    requires IsString(s, 0x100) && i < |s| && !Overlong(s, i)
    requires FromUtf8(s, i).Some? && |FromUtf8(s, i).value| > 0 && Low(FromUtf8(s, i).value[0])
    ensures i + 1 < |s| && s[i] == 0xED && s[i + 1] / 16 == 0xB
  {
    var (cp, j) := DecodeAt(s, i);
    DecodedShort(s, i);
    assert FromUtf8(s, i).value[0] == Units(cp.value)[0];
    SurrogateBytes(cp.value);
    assert s[i] == s[i..j + 1][0] && s[i + 1] == s[i..j + 1][1];
  }

  lemma CleanAhead(s: seq<nat>, i: nat)
    requires IsString(s, 0x100) && i < |s| && FromUtf8(s, i).Some? && Clean(s)
    ensures var (cp, j) := DecodeAt(s, i);
      && cp.Some? && j + 1 == i + Length(cp.value) && s[i..j + 1] == Encode(cp.value)
      && (s[j] == 0 <==> cp.value == 0) && (s[j] == 0 <==> j + 1 == |s|)
      && (s[j] != 0 && FromUtf8(s, j + 1).Some? && |FromUtf8(s, j + 1).value| > 0 ==>
            !(High(cp.value) && Low(FromUtf8(s, j + 1).value[0])))
  {
    var (cp, j) := DecodeAt(s, i);
    assert !Overlong(s, i) && !SplitPair(s, i);
    DecodedShort(s, i);
    assert s[j] == s[i..j + 1][j - i];
    if s[j] != 0 && High(cp.value) {
      SurrogateBytes(cp.value);
      assert s[i] == s[i..j + 1][0] && s[i + 1] == s[i..j + 1][1];
      var rest := FromUtf8(s, j + 1);
      if rest.Some? && |rest.value| > 0 && Low(rest.value[0]) {
        assert !Overlong(s, j + 1);
        ReadsLow(s, j + 1);
        assert false;
      }
    }
  }

  /** What is left of s from i on is read as a string that is written as it was. */
  ghost predicate ComesBack(s: seq<nat>, i: nat) {
    && IsString(s, 0x100) && i < |s| && FromUtf8(s, i).Some?
    && var w := FromUtf8(s, i).value; IsString(w, 0x1_0000) && ToUtf8(w, 0) == s[i..]
  }

  lemma {:induction false} CleanComesBack(s: seq<nat>, i: nat)
    requires IsString(s, 0x100) && i < |s| && FromUtf8(s, i).Some? && Clean(s)
    ensures ComesBack(s, i)
    decreases |s| - i
  {
    var (cp, j) := DecodeAt(s, i);
    hide ComesBack, DecodeAt, FromUtf8, Encode, Clean, Units, High, Low, IsString;
    CleanAhead(s, i);
    if s[j] == 0 {
      assert s[i..] == s[i..j + 1];
      LastOne(s, i);
    } else {
      GoesOn(s, i);
      CleanComesBack(s, j + 1);
      OneMore(s, i);
    }
  }

  lemma OneMore(s: seq<nat>, i: nat)
    requires IsString(s, 0x100) && i < |s| && FromUtf8(s, i).Some? && Clean(s) && s[DecodeAt(s, i).1] != 0
    requires ComesBack(s, DecodeAt(s, i).1 + 1)
    ensures ComesBack(s, i)
  {
    hide DecodeAt, FromUtf8, Encode, ToUtf8, Clean, Units, IsString;
    CleanAhead(s, i);
    GoesOn(s, i);
    var (cp, j) := DecodeAt(s, i);
    var rest := FromUtf8(s, j + 1).value;
    StringIsNotEmpty(rest, 0x1_0000);
    EncodeFirst(cp.value, rest);
    Rejoined(s, i, j + 1);
  }

  lemma StringIsNotEmpty(w: seq<nat>, limit: nat)
    requires IsString(w, limit)
    ensures |w| > 0
  {
  }

  lemma Rejoined(s: seq<nat>, i: nat, k: nat)
    requires i <= k <= |s|
    ensures s[i..] == s[i..k] + s[k..]
  {
  }

  lemma GoesOn(s: seq<nat>, i: nat)
    requires IsString(s, 0x100) && i < |s| && FromUtf8(s, i).Some? && s[DecodeAt(s, i).1] != 0
    ensures var (cp, j) := DecodeAt(s, i);
      && j + 1 < |s| && cp.Some? && FromUtf8(s, j + 1).Some?
      && FromUtf8(s, i).value == Units(cp.value) + FromUtf8(s, j + 1).value
  {
    hide DecodeAt, Units;
  }

  lemma LastOne(s: seq<nat>, i: nat)
    requires IsString(s, 0x100) && i < |s| && DecodeAt(s, i).0 == Some(0) && s[DecodeAt(s, i).1] == 0
    requires s[i..] == Encode(0)
    ensures ComesBack(s, i)
  {
    assert FromUtf8(s, i) == Some([0]) && IsString([0], 0x1_0000) && ToUtf8([0], 0) == [0];
  }

  /** A byte string that can be read is what its reading is written as, if and only if it holds no
  overlong form and no pair in halves. */
  lemma ComesBackExactly(s: seq<nat>)
    requires IsString(s, 0x100) && FromUtf8(s, 0).Some?
    ensures var w := FromUtf8(s, 0).value;
      IsString(w, 0x1_0000) && ToUtf8(w, 0) == s <==> Clean(s)
  {
    var w := FromUtf8(s, 0).value;
    assert s[0..] == s;
    if Clean(s) {
      CleanComesBack(s, 0);
    } else if IsString(w, 0x1_0000) && ToUtf8(w, 0) == s {
      EncodedClean(w, 0);
    }
  }

  /** A slash in three bytes is read, and written in one. */
  lemma OverlongChanges()
    ensures FromUtf8([0xE0, 0x80, 0xAF, 0], 0) == Some([0x2F, 0])
    ensures IsString([0x2F, 0], 0x1_0000) && ToUtf8([0x2F, 0], 0) == [0x2F, 0]
  {
    var s: seq<nat> := [0xE0, 0x80, 0xAF, 0];
    assert IsString([0x2F, 0], 0x1_0000);
    assert DecodeAt(s, 0) == (Some(0x2F), 2);
    assert DecodeAt(s, 3) == (Some(0), 3);
    assert FromUtf8(s, 3) == Some([0]);
    var w: seq<nat> := [0x2F, 0];
    ToUtf8Next(w, 0);
    ToUtf8Next(w, 1);
  }
}

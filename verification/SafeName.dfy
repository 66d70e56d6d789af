/** makeSafeName (src/aotcompile.cpp). */
module SafeName {

  /* Bytes that a linker might treat specially become codes of two or three letters and a dot.  Strings of
  characters below 256 stand for byte strings. */

  datatype Option<T> = None | Some(value: T)

  ghost predicate AreBytes(s: string) {
    forall i :: 0 <= i < |s| ==> s[i] as int < 256
  }

  /** is_safe_char */
  predicate IsSafe(c: char) {
    '0' <= c <= '9' || 'A' <= c <= 'Z' || 'a' <= c <= 'z' || c == '_' || c == '$' || 128 <= c as int < 255
  }

  /** hexchars */
  function HexChar(n: nat): char
    requires n < 16
  {
    if n < 10 then '0' + n as char else 'A' + (n - 10) as char
  }

  /** common_names, and hexadecimal digits for bytes without a name. */
  function Code(c: char): (code: string)
    requires c as int < 256
    ensures |code| == 2 || |code| == 3
  {
    match c as int
    case 0x20 => "SP" case 0x21 => "NOT" case 0x22 => "DQT" case 0x23 => "YY"
    case 0x25 => "REM" case 0x26 => "AND" case 0x27 => "SQT"
    case 0x28 => "LPR" case 0x29 => "RPR" case 0x2A => "MUL" case 0x2B => "SUM"
    case 0x2D => "SUB" case 0x2E => "DOT" case 0x2F => "DIV"
    case 0x3A => "COL" case 0x3C => "LT" case 0x3D => "EQ" case 0x3E => "GT" case 0x3F => "QQ"
    case 0x40 => "AT"
    case 0x5B => "LBR" case 0x5C => "RDV" case 0x5D => "RBR" case 0x5E => "POW"
    case 0x60 => "TIC"
    case 0x7B => "LCR" case 0x7C => "OR" case 0x7D => "RCR" case 0x7E => "TLD" case 0x7F => "DEL"
    case n => [HexChar(n / 16), HexChar(n % 16)]
  }

  /** What becomes of one byte, and of a name. */
  function Escape(c: char): (e: string)
    requires c as int < 256
    ensures |e| > 0
  {
    if IsSafe(c) then [c] else Code(c) + "."
  }

  function Mangle(name: string): string
    requires AreBytes(name)
  {
    if name == "" then "" else Mangle(name[..|name| - 1]) + Escape(name[|name| - 1])
  }

  // ---------------------------------------------------------------- reading names back

  function ThreeLetters(x: char, y: char, z: char): Option<char> {
    if y == 'O' && z == 'T' && x == 'N' then Some('!')
    else if y == 'Q' && z == 'T' && x == 'D' then Some('\"')
    else if y == 'E' && z == 'M' && x == 'R' then Some('%')
    else if y == 'N' && z == 'D' && x == 'A' then Some('&')
    else if y == 'Q' && z == 'T' && x == 'S' then Some('\'')
    else if y == 'P' && z == 'R' && x == 'L' then Some('(')
    else if y == 'P' && z == 'R' && x == 'R' then Some(')')
    else if y == 'U' && z == 'L' && x == 'M' then Some('*')
    else if y == 'U' && z == 'M' && x == 'S' then Some('+')
    else if y == 'U' && z == 'B' && x == 'S' then Some('-')
    else if y == 'O' && z == 'T' && x == 'D' then Some('.')
    else if y == 'I' && z == 'V' && x == 'D' then Some('/')
    else if y == 'O' && z == 'L' && x == 'C' then Some(':')
    else if y == 'B' && z == 'R' && x == 'L' then Some('[')
    else if y == 'D' && z == 'V' && x == 'R' then Some('\\')
    else if y == 'B' && z == 'R' && x == 'R' then Some(']')
    else if y == 'O' && z == 'W' && x == 'P' then Some('^')
    else if y == 'I' && z == 'C' && x == 'T' then Some('`')
    else if y == 'C' && z == 'R' && x == 'L' then Some('{')
    else if y == 'C' && z == 'R' && x == 'R' then Some('}')
    else if y == 'L' && z == 'D' && x == 'T' then Some('~')
    else if y == 'E' && z == 'L' && x == 'D' then Some(0x7F as char)
    else None
  }

  function HexValue(c: char): Option<nat> {
    if '0' <= c <= '9' then Some((c - '0') as nat)
    else if 'A' <= c <= 'F' then Some((c - 'A') as nat + 10)
    else None
  }

  function TwoLetters(y: char, z: char): Option<char> {
    if y == 'S' && z == 'P' then Some(' ')
    else if y == 'Y' && z == 'Y' then Some('#')
    else if y == 'L' && z == 'T' then Some('<')
    else if y == 'E' && z == 'Q' then Some('=')
    else if y == 'G' && z == 'T' then Some('>')
    else if y == 'Q' && z == 'Q' then Some('?')
    else if y == 'A' && z == 'T' then Some('@')
    else if y == 'O' && z == 'R' then Some('|')
    else
      var h, l := HexValue(y), HexValue(z);
      if h.Some? && l.Some? then Some((h.value * 16 + l.value) as char) else None
  }

  /** Reads a name from its end: before a dot stands a code, of three letters if those are one, else of
  two; anything else stands for itself. */
  function Unmangle(safe: string): Option<string> {
    var n := |safe|;
    if n == 0 then Some("")
    else if safe[n - 1] != '.' then Append(Unmangle(safe[..n - 1]), safe[n - 1])
    else if n >= 4 && ThreeLetters(safe[n - 4], safe[n - 3], safe[n - 2]).Some? then
      Append(Unmangle(safe[..n - 4]), ThreeLetters(safe[n - 4], safe[n - 3], safe[n - 2]).value)
    else if n >= 3 && TwoLetters(safe[n - 3], safe[n - 2]).Some? then
      Append(Unmangle(safe[..n - 3]), TwoLetters(safe[n - 3], safe[n - 2]).value)
    else None
  }

  function Append(s: Option<string>, c: char): Option<string> {
    if s.Some? then Some(s.value + [c]) else None
  }

  // ---------------------------------------------------------------- the names, character by character

  /** The name of a byte, if it has one. */
  function NameOf(c: char): string {
    match c
    case ' ' => "SP" case '!' => "NOT" case '\"' => "DQT" case '#' => "YY" case '%' => "REM"
    case '&' => "AND" case '\'' => "SQT" case '(' => "LPR" case ')' => "RPR" case '*' => "MUL"
    case '+' => "SUM" case '-' => "SUB" case '.' => "DOT" case '/' => "DIV" case ':' => "COL"
    case '<' => "LT" case '=' => "EQ" case '>' => "GT" case '?' => "QQ" case '@' => "AT"
    case '[' => "LBR" case '\\' => "RDV" case ']' => "RBR" case '^' => "POW" case '`' => "TIC"
    case '{' => "LCR" case '|' => "OR" case '}' => "RCR" case '~' => "TLD"
    case _ => if c as int == 0x7F then "DEL" else ""
  }

  const HEX_DIGITS := "0123456789ABCDEF"

  /** Letters, digits, two other characters and the bytes of UTF-8 (but 255) stay; a byte with a name is
  written as its name, any other as two hexadecimal digits; and every byte is read back from these. */
  lemma EscapeTable(c: char)
    requires c as int < 256
    ensures Escape(c) ==
            if 'A' <= c <= 'Z' || 'a' <= c <= 'z' || '0' <= c <= '9' || c == '_' || c == '$' || 128 <= c as int <= 254 then [c]
            else if NameOf(c) != "" then NameOf(c) + "."
            else [HEX_DIGITS[c as int / 16], HEX_DIGITS[c as int % 16], '.']
    ensures Unmangle(Escape(c)) == Some([c])
  {
    hide Code, ThreeLetters, TwoLetters, NameOf, HexChar, HexValue;
    EscapeRead("", c);
    assert "" + Escape(c) == Escape(c) && "" + [c] == [c];
    CodeTable(c);
  }

  lemma CodeTable(c: char)
    requires c as int < 256
    ensures NameOf(c) != "" ==> Code(c) == NameOf(c)
    ensures NameOf(c) == "" ==> Code(c) == [HEX_DIGITS[c as int / 16], HEX_DIGITS[c as int % 16]]
  {
    hide Code, NameOf, HexChar;
    HexDigits(c as int / 16);
    HexDigits(c as int % 16);
    if c as int < 0x2A {
      FirstNames(c);
    } else if c as int < 0x5B {
      MiddleNames(c);
    } else {
      LastNames(c);
    }
  }

  lemma FirstNames(c: char)
    requires c as int < 0x2A
    ensures NameOf(c) != "" ==> Code(c) == NameOf(c)
    ensures NameOf(c) == "" ==> Code(c) == [HexChar(c as int / 16), HexChar(c as int % 16)]
  {
  }

  lemma MiddleNames(c: char)
    requires 0x2A <= c as int < 0x5B
    ensures NameOf(c) != "" ==> Code(c) == NameOf(c)
    ensures NameOf(c) == "" ==> Code(c) == [HexChar(c as int / 16), HexChar(c as int % 16)]
  {
  }

  lemma LastNames(c: char)
    requires 0x5B <= c as int < 256
    ensures NameOf(c) != "" ==> Code(c) == NameOf(c)
    ensures NameOf(c) == "" ==> Code(c) == [HexChar(c as int / 16), HexChar(c as int % 16)]
  {
  }

  lemma HexDigits(n: nat)
    requires n < 16
    ensures HexChar(n) == HEX_DIGITS[n]
  {
  }

  lemma HexBack(n: nat)
    requires n < 16
    ensures HexValue(HexChar(n)) == Some(n)
  {
  }

  /** No code of three letters ends in a code of two, or in two hexadecimal digits. */
  lemma CodesDoNotClash(c: char, x: char)
    requires c as int < 256 && |Code(c)| == 2
    ensures ThreeLetters(x, Code(c)[0], Code(c)[1]) == None && TwoLetters(Code(c)[0], Code(c)[1]) == Some(c)
  {
    var n := c as int;
    HexBack(n / 16);
    HexBack(n % 16);
  }

  lemma CodeRead(c: char)
    requires c as int < 256 && |Code(c)| == 3
    ensures ThreeLetters(Code(c)[0], Code(c)[1], Code(c)[2]) == Some(c)
  {
  }

  /** The code at the end of a name is read as the byte it stands for, whatever precedes it. */
  lemma EscapeRead(before: string, c: char)
    requires c as int < 256
    ensures Unmangle(before + Escape(c)) == Append(Unmangle(before), c)
  {
    var safe := before + Escape(c);
    var n := |safe|;
    if IsSafe(c) {
      assert safe[..n - 1] == before;
    } else if |Code(c)| == 3 {
      CodeRead(c);
      assert safe[..n - 4] == before;
      assert safe[n - 4] == Code(c)[0] && safe[n - 3] == Code(c)[1] && safe[n - 2] == Code(c)[2] && safe[n - 1] == '.';
      hide Code, ThreeLetters, TwoLetters;
    } else {
      CodesDoNotClash(c, if before == "" then 'x' else before[|before| - 1]);
      assert safe[..n - 3] == before;
      assert safe[n - 3] == Code(c)[0] && safe[n - 2] == Code(c)[1] && safe[n - 1] == '.';
      assert before != "" ==> safe[n - 4] == before[|before| - 1];
      hide Code, ThreeLetters, TwoLetters;
    }
  }

  /** Mangling is reversible: every byte string is recovered from its safe name. */
  lemma {:induction false} RoundTrip(name: string)
    requires AreBytes(name)
    ensures Unmangle(Mangle(name)) == Some(name)
  {
    if name != "" {
      var n := |name| - 1;
      assert name == name[..n] + [name[n]];
      RoundTrip(name[..n]);
      EscapeRead(Mangle(name[..n]), name[n]);
    }
  }

  /** So different names stay different. */
  lemma NamesStayApart(a: string, b: string)
    requires AreBytes(a) && AreBytes(b) && Mangle(a) == Mangle(b)
    ensures a == b
  {
    RoundTrip(a);
    RoundTrip(b);
  }

  ghost predicate AllSafe(name: string) {
    forall i :: 0 <= i < |name| ==> IsSafe(name[i])
  }

  /** The size alone tells whether some byte was escaped. */
  lemma {:induction false} SizeTells(name: string)
    requires AreBytes(name)
    ensures |Mangle(name)| >= |name|
    ensures |Mangle(name)| == |name| <==> AllSafe(name)
    ensures AllSafe(name) ==> Mangle(name) == name
  {
    hide Code, Mangle, Escape, AllSafe, IsSafe;
    MangleLast(name);
    AllSafeLast(name);
    if name != "" {
      var n := |name| - 1;
      SizeTells(name[..n]);
      assert name == name[..n] + [name[n]];
    }
  }

  lemma AllSafeLast(name: string)
    requires AreBytes(name)
    ensures name == "" ==> AllSafe(name)
    ensures name != "" ==>
      var n := |name| - 1;
      && (AllSafe(name) <==> AllSafe(name[..n]) && IsSafe(name[n]))
      && (|Escape(name[n])| == 1 <==> IsSafe(name[n])) && (IsSafe(name[n]) ==> Escape(name[n]) == [name[n]])
  {
    hide Code, IsSafe;
    if name != "" { assert name == name[..|name| - 1] + [name[|name| - 1]]; }
  }

  lemma MangleLast(name: string)
    requires AreBytes(name)
    ensures name == "" ==> Mangle(name) == ""
    ensures name != "" ==> Mangle(name) == Mangle(name[..|name| - 1]) + Escape(name[|name| - 1])
  {
  }

  /** What a safe name is made of: identifier characters, dots, and bytes from 128 to 254. */
  lemma {:induction false} OnlySafeCharacters(name: string)
    requires AreBytes(name)
    ensures forall k :: 0 <= k < |Mangle(name)| ==> IsSafe(Mangle(name)[k]) || Mangle(name)[k] == '.'
  {
    if name != "" {
      OnlySafeCharacters(name[..|name| - 1]);
      EscapeIsSafe(name[|name| - 1]);
      hide Code, Escape;
    }
  }

  lemma EscapeIsSafe(c: char)
    requires c as int < 256
    ensures forall k :: 0 <= k < |Escape(c)| ==> IsSafe(Escape(c)[k]) || Escape(c)[k] == '.'
  {
  }

  lemma {:induction false} MangleConcat(a: string, b: string)
    requires AreBytes(a) && AreBytes(b)
    ensures Mangle(a + b) == Mangle(a) + Mangle(b)
    decreases |b|
  {
    hide Mangle, Escape;
    MangleLast(b);
    MangleLast(a + b);
    if b == "" {
      assert a + b == a;
    } else {
      var n := |b| - 1;
      assert (a + b)[..|a| + n] == a + b[..n];
      MangleConcat(a, b[..n]);
    }
  }

  /** Some safe characters, and then one that is not. */
  lemma MangleUpTo(before: string, safe: string, c: char, code: string)
    requires AreBytes(before) && AreBytes(safe) && AllSafe(safe) && c as int < 256 && Escape(c) == code
    ensures Mangle(before + safe + [c]) == Mangle(before) + safe + code
  {
    hide Escape, Mangle, AllSafe;
    MangleConcat(before, safe);
    MangleConcat(before + safe, [c]);
    SizeTells(safe);
    MangleLast([c]);
    MangleLast("");
    assert [c][..0] == "";
  }

  lemma ExampleBytes()
    ensures Escape('.') == "DOT." && Escape('!') == "NOT." && Escape('#') == "YY."
    ensures AllSafe("llvm") && AllSafe("a") && AllSafe("")
  {
    hide Mangle;
  }

  /** The example that the source gives for makeSafeName; its second letter a is followed by a character of
  three bytes. */
  lemma SourceExample(utf8: string)
    requires utf8 == [0xE2 as char, 0x89 as char, 0xA0 as char]
    ensures Mangle("llvm.a" + utf8 + "a$a!a##") == "llvmDOT.a" + utf8 + "a$aNOT.aYY.YY."
  {
    hide Mangle, Escape, AllSafe;
    var middle := "a" + utf8 + "a$a";
    var first := "llvm" + ['.'];
    var second := first + middle + ['!'];
    var third := second + "a" + ['#'];
    ExampleBytes();
    ExampleMiddle(utf8);
    MangleLast("");
    MangleUpTo("", "llvm", '.', "DOT.");
    MangleUpTo(first, middle, '!', "NOT.");
    MangleUpTo(second, "a", '#', "YY.");
    MangleUpTo(third, "", '#', "YY.");
    assert "" + "llvm" + ['.'] == first;
    ExampleStrings(middle, utf8);
  }

  lemma ExampleStrings(middle: string, utf8: string)
    requires middle == "a" + utf8 + "a$a"
    ensures "llvm" + ['.'] + middle + ['!'] + "a" + ['#'] + "" + ['#'] == "llvm.a" + utf8 + "a$a!a##"
    ensures "" + "llvm" + "DOT." + middle + "NOT." + "a" + "YY." + "" + "YY." == "llvmDOT.a" + utf8 + "a$aNOT.aYY.YY."
  {
  }

  lemma ExampleMiddle(utf8: string)
    requires utf8 == [0xE2 as char, 0x89 as char, 0xA0 as char]
    ensures AllSafe("a" + utf8 + "a$a")
  {
  }

  // ---------------------------------------------------------------- makeSafeName

  /** makeSafeName: the name the object has afterwards.  It is renamed exactly when some byte of its name
  was not safe. */
  method MakeSafeName(name: string) returns (newName: string, renamed: bool)
    requires AreBytes(name)
    ensures newName == Mangle(name)
    ensures renamed <==> exists i :: 0 <= i < |name| && !IsSafe(name[i])
    ensures !renamed ==> newName == name
  {
    var safe := "";
    for i := 0 to |name|
      invariant safe == Mangle(name[..i])
    {
      MangleNext(name, i);
      var c := name[i];
      if IsSafe(c) {
        safe := safe + [c];
      } else {
        safe := AppendCode(safe, c);
      }
    }
    assert name[..|name|] == name;
    SizeTells(name);
    newName, renamed := name, false;
    if |safe| != |name| {
      newName, renamed := safe, true;
    }
  }

  /** The letters of the code are appended one by one, then the dot. */
  method AppendCode(safe: string, c: char) returns (safe': string)
    requires c as int < 256
    ensures safe' == safe + (Code(c) + ".")
  {
    hide Code;
    var code := Code(c);
    safe' := safe + [code[0]];
    safe' := safe' + [code[1]];
    if |code| > 2 {
      safe' := safe' + [code[2]];
    }
    safe' := safe' + ['.'];
  }

  lemma MangleNext(name: string, i: nat)
    requires AreBytes(name) && i < |name|
    ensures Mangle(name[..i + 1]) == Mangle(name[..i]) + Escape(name[i])
  {
    assert name[..i + 1][..i] == name[..i];
  }
}

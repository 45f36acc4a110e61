/** Reading the kernel's mount table. */
module Mounts {
  import opened Wrappers
  import opened Sequences
  import opened Text

  datatype MountEntry = MountEntry(source: string, mountPoint: string, filesystem: string, options: seq<string>)

  type Octet = n: nat | n < 256

  // --------------------------------------------------------------- characters

  /** Unicode's White_Space, which `split_whitespace` splits on. */
  predicate IsWhitespace(c: char) {
    var n := c as int;
    9 <= n <= 13 || n == 0x20 || n == 0x85 || n == 0xA0 || n == 0x1680 || 0x2000 <= n <= 0x200A
    || n == 0x2028 || n == 0x2029 || n == 0x202F || n == 0x205F || n == 0x3000
  }

  predicate IsAscii(s: string) {
    forall c :: c in s ==> c as int < 128
  }

  /** The UTF-8 encoding of one character. */
  function Encoding(c: char): (bytes: seq<Octet>)
    ensures c as int < 128 ==> bytes == [c as int]
    ensures c as int >= 128 ==> |bytes| >= 2 && forall b :: b in bytes ==> b >= 128
  {
    var n := c as int;
    if n < 0x80 then [n]
    else if n < 0x800 then [0xC0 + n / 64, 0x80 + n % 64]
    else if n < 0x10000 then [0xE0 + n / 4096, 0x80 + n / 64 % 64, 0x80 + n % 64]
    else [0xF0 + n / 262144, 0x80 + n / 4096 % 64, 0x80 + n / 64 % 64, 0x80 + n % 64]
  }

  function Utf8(s: string): seq<Octet> {
    if s == "" then [] else Encoding(s[0]) + Utf8(s[1..])
  }

  lemma {:induction false} Utf8Concat(a: string, b: string)
    ensures Utf8(a + b) == Utf8(a) + Utf8(b)
    decreases |a|
  {
    if a == "" {
      assert a + b == b;
    } else {
      assert (a + b)[0] == a[0] && (a + b)[1..] == a[1..] + b;
      Utf8Concat(a[1..], b);
    }
  }

  /** The bits of an encoding put together again, those aside that say how long it is. */
  function CodePoint(bytes: seq<Octet>): int
    requires 1 <= |bytes| <= 4
  {
    var a := bytes[0] as int;
    if |bytes| == 1 then a
    else
      var b := bytes[1] as int - 0x80;
      if |bytes| == 2 then (a - 0xC0) * 64 + b
      else
        var c := bytes[2] as int - 0x80;
        if |bytes| == 3 then (a - 0xE0) * 4096 + b * 64 + c
        else (a - 0xF0) * 262144 + b * 4096 + c * 64 + (bytes[3] as int - 0x80)
  }

  lemma Sixths(n: nat)
    ensures n == n / 64 * 64 + n % 64
    ensures n / 64 == n / 4096 * 64 + n / 64 % 64
    ensures n / 4096 == n / 262144 * 64 + n / 4096 % 64
  {
    assert n / 64 / 64 == n / 4096 && n / 4096 / 64 == n / 262144;
  }

  /** The encoding of a character decodes to it, and is as long as its width says. */
  lemma EncodingDecodes(c: char)
    ensures 1 <= |Encoding(c)| <= 4 && CodePoint(Encoding(c)) == c as int && |Encoding(c)| == Utf8Width(c)
  {
    Sixths(c as int);
  }

  lemma {:induction false} Utf8Length(s: string)
    ensures |Utf8(s)| == ByteLength(s)
  {
    if s != "" {
      EncodingDecodes(s[0]);
      Utf8Length(s[1..]);
    }
  }

  // ------------------------------------------------------------------ escapes

  function Latin(bytes: seq<Octet>): string {
    if bytes == [] then "" else [bytes[0] as char] + Latin(bytes[1..])
  }

  function Digits(bytes: seq<Octet>, value: nat): Option<nat> {
    if bytes == [] then Some(value)
    else if !(48 <= bytes[0] <= 55) then None
    else Digits(bytes[1..], value * 8 + (bytes[0] - 48))
  }

  /** `u8::from_str_radix(digits, 8)`: an optional plus sign, at least one digit, at most 255. */
  function FromOctal(digits: seq<Octet>): (r: Option<Octet>) {
    var unsigned := if |digits| > 1 && digits[0] == 43 then digits[1..] else digits;
    if unsigned == [] then None
    else
      match Digits(unsigned, 0)
      case Some(v) => if v < 256 then Some(v) else None
      case None => None
  }

  /** What follows a backslash, up to three bytes of it. */
  function Taken(bytes: seq<Octet>): nat {
    if |bytes| < 3 then |bytes| else 3
  }

  function Escaped(digits: seq<Octet>): string {
    match FromOctal(digits)
    case Some(decoded) => [decoded as char]
    case None => "\\" + Latin(digits)
  }

  function Unescaped(bytes: seq<Octet>): string {
    if bytes == [] then ""
    else if bytes[0] != 92 then [bytes[0] as char] + Unescaped(bytes[1..])
    else
      var k := Taken(bytes[1..]);
      Escaped(bytes[1..][..k]) + Unescaped(bytes[1..][k..])
  }

  predicate IsOctalDigit(b: Octet) {
    48 <= b <= 55
  }

  /** The number some octal digits write, the most significant first. */
  function OctalNumber(digits: seq<Octet>): nat
    requires forall b :: b in digits ==> IsOctalDigit(b)
  {
    if digits == [] then 0
    else
      var last := digits[|digits| - 1];
      assert last in digits && IsOctalDigit(last);
      OctalNumber(digits[..|digits| - 1]) * 8 + (last - 48)
  }

  lemma {:induction false} DigitsSnoc(front: seq<Octet>, last: Octet, value: nat)
    ensures Digits(front + [last], value) ==
            match Digits(front, value)
            case None => None
            case Some(v) => if IsOctalDigit(last) then Some(v * 8 + (last - 48)) else None
    decreases |front|
  {
    if front == [] {
      assert front + [last] == [last] && [last][1..] == [];
    } else {
      assert (front + [last])[0] == front[0] && (front + [last])[1..] == front[1..] + [last];
      if IsOctalDigit(front[0]) {
        DigitsSnoc(front[1..], last, value * 8 + (front[0] - 48));
      }
    }
  }

  lemma {:induction false} DigitsExactly(digits: seq<Octet>)
    ensures Digits(digits, 0).Some? <==> forall b :: b in digits ==> IsOctalDigit(b)
    ensures Digits(digits, 0).Some? ==> Digits(digits, 0).value == OctalNumber(digits)
    decreases |digits|
  {
    if digits != [] {
      var front, last := digits[..|digits| - 1], digits[|digits| - 1];
      assert digits == front + [last];
      DigitsExactly(front);
      DigitsSnoc(front, last, 0);
    }
  }

  /** An escape is octal digits, after a sign if there is one, that write a byte. */
  lemma OctalExactly(digits: seq<Octet>, decoded: Octet)
    ensures FromOctal(digits) == Some(decoded) <==>
            var unsigned := if |digits| > 1 && digits[0] == 43 then digits[1..] else digits;
            unsigned != [] && (forall b :: b in unsigned ==> IsOctalDigit(b)) && OctalNumber(unsigned) == decoded
  {
    DigitsExactly(if |digits| > 1 && digits[0] == 43 then digits[1..] else digits);
  }

  /** No backslash is followed by an octal digit or a sign. */
  ghost predicate Literal(bytes: seq<Octet>) {
    forall i :: 0 <= i < |bytes| - 1 && bytes[i] == 92 ==> !IsOctalDigit(bytes[i + 1]) && bytes[i + 1] != 43
  }

  lemma NoEscape(digits: seq<Octet>)
    requires digits != [] ==> !IsOctalDigit(digits[0]) && digits[0] != 43
    ensures Escaped(digits) == "\\" + Latin(digits)
  {
  }

  lemma LiteralTail(bytes: seq<Octet>, k: nat)
    requires Literal(bytes) && k <= |bytes|
    ensures Literal(bytes[k..])
  {
    assert forall i :: 0 <= i < |bytes[k..]| ==> bytes[k..][i] == bytes[k + i];
  }

  lemma {:induction false} LatinConcat(a: seq<Octet>, b: seq<Octet>)
    ensures Latin(a + b) == Latin(a) + Latin(b)
    decreases |a|
  {
    if a == [] {
      assert a + b == b;
    } else {
      assert (a + b)[0] == a[0] && (a + b)[1..] == a[1..] + b;
      LatinConcat(a[1..], b);
    }
  }

  lemma {:induction false} LiteralBytes(bytes: seq<Octet>)
    requires Literal(bytes)
    ensures Unescaped(bytes) == Latin(bytes)
    decreases |bytes|
  {
    if bytes == [] {
    } else if bytes[0] != 92 {
      LiteralTail(bytes, 1);
      LiteralBytes(bytes[1..]);
    } else {
      var rest := bytes[1..];
      var k := Taken(rest);
      LiteralTail(bytes, 1);
      LiteralTail(rest, k);
      LiteralBytes(rest[k..]);
      assert k > 0 ==> rest[..k][0] == bytes[1];
      NoEscape(rest[..k]);
      assert rest == rest[..k] + rest[k..];
      LatinConcat(rest[..k], rest[k..]);
    }
  }

  lemma {:induction false} AsciiIsLatin(value: string)
    requires IsAscii(value)
    ensures Latin(Utf8(value)) == value
  {
    if value != "" {
      assert value[0] in value && forall c :: c in value[1..] ==> c in value;
      AsciiIsLatin(value[1..]);
      LatinConcat([value[0] as int], Utf8(value[1..]));
      assert [value[0] as int][1..] == [] && Latin([value[0] as int]) == [value[0]];
      assert value == [value[0]] + value[1..];
    }
  }

  /** What is no escape is kept as it is, backslash and all. */
  lemma LiteralIsKept(value: string)
    requires IsAscii(value) && Literal(Utf8(value))
    ensures Unescaped(Utf8(value)) == value
  {
    LiteralBytes(Utf8(value));
    AsciiIsLatin(value);
  }

  /** The decoding loop. */
  method Unescape(value: string) returns (out: string)
    ensures out == Unescaped(Utf8(value))
  {
    out := "";
    var bytes := Utf8(value);
    while bytes != []
      invariant out + Unescaped(bytes) == Unescaped(Utf8(value))
      decreases |bytes|
    {
      var byte := bytes[0];
      ghost var soFar, left := out, bytes;
      bytes := bytes[1..];
      if byte != 92 {
        out := out + [byte as char];
      } else {
        var k := Taken(bytes);
        var digits := bytes[..k];
        bytes := bytes[k..];
        out := out + Escaped(digits);
      }
      Regroup(soFar, out[|soFar|..], Unescaped(bytes));
    }
  }

  // ------------------------------------------------------------------ parsing

  function SkipBlank(s: string): (r: string)
    ensures |r| <= |s|
  {
    if s != "" && IsWhitespace(s[0]) then SkipBlank(s[1..]) else s
  }

  function WordLength(s: string): (n: nat)
    ensures n <= |s|
  {
    if s == "" || IsWhitespace(s[0]) then 0 else 1 + WordLength(s[1..])
  }

  /** `split_whitespace`. */
  function Words(s: string): seq<string>
    decreases |s|
  {
    var rest := SkipBlank(s);
    if rest == "" then []
    else
      BlankSkipped(s);
      [rest[..WordLength(rest)]] + Words(rest[WordLength(rest)..])
  }

  lemma BlankSkipped(s: string)
    ensures SkipBlank(s) == "" || (!IsWhitespace(SkipBlank(s)[0]) && WordLength(SkipBlank(s)) > 0)
  {
  }

  /** `lines`: split at newlines, each with the carriage return before it, a final empty piece dropped. */
  function Lines(table: string): seq<string> {
    LinesOf(Split(table, '\n'))
  }

  function LinesOf(parts: seq<string>): seq<string>
    requires |parts| >= 1
  {
    var last := |parts| - 1;
    seq(last, i requires 0 <= i < last => Stripped(parts[i])) + if parts[last] == "" then [] else [parts[last]]
  }

  function Stripped(line: string): string {
    if line != "" && line[|line| - 1] == '\r' then line[..|line| - 1] else line
  }

  function ParseLine(line: string): Option<MountEntry> {
    var fields := Words(line);
    if |fields| < 3 then None
    else
      Some(MountEntry(fields[0], Unescaped(Utf8(fields[1])), fields[2],
                      Split(if |fields| > 3 then fields[3] else "", ',')))
  }

  function ParseLines(lines: seq<string>): seq<MountEntry> {
    if lines == [] then []
    else
      (match ParseLine(lines[0]) case Some(e) => [e] case None => []) + ParseLines(lines[1..])
  }

  /** `parse_proc_mounts`. */
  function Parse(table: string): seq<MountEntry> {
    ParseLines(Lines(table))
  }

  // ----------------------------------------------------------------- printing

  predicate Special(c: char) {
    c == ' ' || c == '\t' || c == '\n' || c == '\\'
  }

  function OctalDigits(n: nat): string
    requires n < 128
  {
    [(48 + n / 64) as char, (48 + n / 8 % 8) as char, (48 + n % 8) as char]
  }

  /** How the kernel writes a path: four characters as three-digit octal escapes. */
  function Escape(path: string): string {
    if path == "" then ""
    else (if Special(path[0]) then "\\" + OctalDigits(path[0] as int) else [path[0]]) + Escape(path[1..])
  }

  function OptionsField(options: seq<string>): string {
    if options == [] then "" else Join(options, ',')
  }

  function PrintFields(e: MountEntry): seq<string> {
    [e.source, Escape(e.mountPoint), e.filesystem, OptionsField(e.options), "0", "0"]
  }

  function PrintLine(e: MountEntry): string {
    Join(PrintFields(e), ' ')
  }

  function Print(entries: seq<MountEntry>): string {
    if entries == [] then "" else PrintLine(entries[0]) + "\n" + Print(entries[1..])
  }

  // -------------------------------------------------- escaping and unescaping

  /** What becomes of a path: beyond ASCII, each byte of a character turns into one of its own. */
  function Garbled(path: string): string {
    if path == "" then ""
    else (if path[0] as int < 128 then [path[0]] else Latin(Encoding(path[0]))) + Garbled(path[1..])
  }

  lemma PlainStep(b: Octet, tail: seq<Octet>)
    requires b != 92
    ensures Unescaped([b] + tail) == [b as char] + Unescaped(tail)
  {
    assert ([b] + tail)[0] == b && ([b] + tail)[1..] == tail;
  }

  lemma {:induction false} PlainPrefix(bytes: seq<Octet>, tail: seq<Octet>)
    requires 92 !in bytes
    ensures Unescaped(bytes + tail) == Latin(bytes) + Unescaped(tail)
    decreases |bytes|
  {
    if bytes == [] {
      assert bytes + tail == tail;
    } else {
      assert bytes == [bytes[0]] + bytes[1..] && 92 !in bytes[1..];
      assert bytes + tail == [bytes[0]] + (bytes[1..] + tail);
      PlainStep(bytes[0], bytes[1..] + tail);
      PlainPrefix(bytes[1..], tail);
    }
  }

  lemma EscapePrefix(a: Octet, b: Octet, c: Octet, tail: seq<Octet>)
    ensures Unescaped([92, a, b, c] + tail) == Escaped([a, b, c]) + Unescaped(tail)
  {
    var bytes := [92, a, b, c] + tail;
    assert bytes[1..] == [a, b, c] + tail;
    assert bytes[1..][..3] == [a, b, c] && bytes[1..][3..] == tail;
  }

  lemma OctalValue(a: nat, b: nat, c: nat)
    requires a < 2 && b < 8 && c < 8
    ensures FromOctal([48 + a, 48 + b, 48 + c]) == Some(a * 64 + b * 8 + c)
  {
    var digits: seq<Octet> := [48 + a, 48 + b, 48 + c];
    assert digits[1..] == [48 + b, 48 + c] && digits[1..][1..] == [48 + c] && digits[1..][1..][1..] == [];
    assert Digits(digits, 0) == Digits(digits[1..], a);
    assert Digits(digits[1..], a) == Digits([48 + c], a * 8 + b);
    assert Digits([48 + c], a * 8 + b) == Digits([], (a * 8 + b) * 8 + c);
  }

  lemma Utf8Four(w: char, x: char, y: char, z: char)
    requires w as int < 128 && x as int < 128 && y as int < 128 && z as int < 128
    ensures Utf8([w, x, y, z]) == [w as int, x as int, y as int, z as int]
  {
    assert [w, x, y, z][1..] == [x, y, z] && [x, y, z][1..] == [y, z] && [y, z][1..] == [z] && [z][1..] == "";
    assert Utf8([z]) == [z as int] + Utf8("");
    assert Utf8([y, z]) == [y as int] + Utf8([z]);
    assert Utf8([x, y, z]) == [x as int] + Utf8([y, z]);
  }

  lemma ThreeDigits(n: nat)
    requires n < 128
    ensures n / 64 < 2 && n / 8 % 8 < 8 && n % 8 < 8
    ensures n / 64 * 64 + n / 8 % 8 * 8 + n % 8 == n
  {
    assert n / 8 / 8 == n / 64;
  }

  /** The four special characters, by their escapes. */
  lemma SpecialDecodes(c: char, tail: seq<Octet>)
    requires Special(c)
    ensures Unescaped(Utf8("\\" + OctalDigits(c as int)) + tail) == [c] + Unescaped(tail)
  {
    var n := c as int;
    var x, y, z := n / 64, n / 8 % 8, n % 8;
    ThreeDigits(n);
    assert "\\" + OctalDigits(n) == ['\\', (48 + x) as char, (48 + y) as char, (48 + z) as char];
    Utf8Four('\\', (48 + x) as char, (48 + y) as char, (48 + z) as char);
    OctalValue(x, y, z);
    EscapePrefix(48 + x, 48 + y, 48 + z, tail);
  }

  lemma {:induction false} UnescapeOfEscape(path: string)
    ensures Unescaped(Utf8(Escape(path))) == Garbled(path)
  {
    if path != "" {
      var c, tail := path[0], Utf8(Escape(path[1..]));
      UnescapeOfEscape(path[1..]);
      if Special(c) {
        Utf8Concat("\\" + OctalDigits(c as int), Escape(path[1..]));
        SpecialDecodes(c, tail);
      } else {
        Utf8Concat([c], Escape(path[1..]));
        assert Utf8([c]) == Encoding(c) + Utf8("");
        assert Utf8([c]) == Encoding(c);
        assert c != '\\' && forall b :: b in Encoding(c) ==> b != 92;
        PlainPrefix(Encoding(c), tail);
        assert c as int < 128 ==> Latin([c as int]) == [c] + Latin([]);
      }
    }
  }

  lemma {:induction false} LatinLength(bytes: seq<Octet>)
    ensures |Latin(bytes)| == |bytes|
  {
    if bytes != [] {
      LatinLength(bytes[1..]);
    }
  }

  lemma {:induction false} GarbledLength(path: string)
    ensures |Garbled(path)| >= |path|
    ensures !IsAscii(path) ==> |Garbled(path)| > |path|
    ensures IsAscii(path) ==> Garbled(path) == path
  {
    if path != "" {
      GarbledLength(path[1..]);
      LatinLength(Encoding(path[0]));
      assert path == [path[0]] + path[1..] && path[0] in path;
      assert IsAscii(path) <==> path[0] as int < 128 && IsAscii(path[1..]) by {
        assert forall c :: c in path <==> c == path[0] || c in path[1..];
      }
    }
  }

  /** A path survives being escaped and unescaped exactly when it is ASCII. */
  lemma SurvivesExactly(path: string)
    ensures Unescaped(Utf8(Escape(path))) == path <==> IsAscii(path)
  {
    UnescapeOfEscape(path);
    GarbledLength(path);
  }

  // ---------------------------------------------------------- words and lines

  predicate Solid(s: string) {
    s != "" && forall c :: c in s ==> !IsWhitespace(c)
  }

  lemma {:induction false} WordLengthOf(word: string, tail: string)
    requires forall c :: c in word ==> !IsWhitespace(c)
    requires tail == "" || IsWhitespace(tail[0])
    ensures WordLength(word + tail) == |word|
    decreases |word|
  {
    if word == "" {
      assert word + tail == tail;
    } else {
      assert (word + tail)[0] == word[0] && (word + tail)[1..] == word[1..] + tail;
      assert word[0] in word;
      WordLengthOf(word[1..], tail);
    }
  }

  lemma FirstWord(word: string, tail: string)
    requires Solid(word) && (tail == "" || IsWhitespace(tail[0]))
    ensures Words(word + tail) == [word] + Words(tail)
  {
    WordLengthOf(word, tail);
    assert word[0] in word;
    assert SkipBlank(word + tail) == word + tail;
    assert (word + tail)[..|word|] == word && (word + tail)[|word|..] == tail;
  }

  lemma WordsSkip(s: string)
    ensures Words(" " + s) == Words(s)
  {
    assert (" " + s)[1..] == s;
    assert SkipBlank(" " + s) == SkipBlank(s);
  }

  lemma {:induction false} WordsOfJoin(words: seq<string>)
    requires words != [] && forall w :: w in words ==> Solid(w)
    ensures Words(Join(words, ' ')) == words
    decreases |words|
  {
    assert words[0] in words;
    if |words| == 1 {
      FirstWord(words[0], "");
      assert words[0] + "" == words[0];
    } else {
      var rest := Join(words[1..], ' ');
      WordsOfJoin(words[1..]);
      FirstWord(words[0], " " + rest);
      WordsSkip(rest);
      Regroup(words[0], " ", rest);
      assert Join(words, ' ') == words[0] + " " + rest;
      assert words == [words[0]] + words[1..];
    }
  }

  lemma {:induction false} JoinChars(parts: seq<string>, sep: char, c: char)
    requires parts != [] && c in Join(parts, sep)
    ensures c == sep || exists part :: part in parts && c in part
    decreases |parts|
  {
    if |parts| == 1 {
      assert parts[0] in parts;
    } else if c in parts[0] {
      assert parts[0] in parts;
    } else if c != sep {
      JoinChars(parts[1..], sep, c);
      var part :| part in parts[1..] && c in part;
      assert part in parts;
    }
  }

  function Printed(entries: seq<MountEntry>): seq<string> {
    if entries == [] then [] else [PrintLine(entries[0])] + Printed(entries[1..])
  }

  lemma {:induction false} PrintIsJoin(entries: seq<MountEntry>)
    ensures Print(entries) == Join(Printed(entries) + [""], '\n')
    decreases |entries|
  {
    if entries == [] {
      assert Printed(entries) + [""] == [""];
    } else {
      PrintIsJoin(entries[1..]);
      var lines := Printed(entries[1..]) + [""];
      assert Printed(entries) + [""] == [PrintLine(entries[0])] + lines;
      assert ([PrintLine(entries[0])] + lines)[1..] == lines;
    }
  }

  // -------------------------------------------------------- words across blanks

  lemma {:induction false} WordsConcat(a: string, b: string)
    ensures Words(a + (" " + b)) == Words(a) + Words(b)
    decreases |a|
  {
    var s := a + (" " + b);
    if a == "" {
      assert s == " " + b;
      WordsSkip(b);
    } else if IsWhitespace(a[0]) {
      assert s[0] == a[0] && s[1..] == a[1..] + (" " + b);
      WordsConcat(a[1..], b);
      assert Words(a) == Words(a[1..]) && Words(s) == Words(s[1..]);
    } else {
      var n := WordLength(a);
      var word, rest := a[..n], a[n..];
      WordIsSolid(a);
      assert a == word + rest && s == word + (rest + (" " + b));
      FirstWord(word, rest);
      FirstWord(word, rest + (" " + b));
      WordsConcat(rest, b);
      Regroup([word], Words(rest), Words(b));
    }
  }

  lemma {:induction false} WordIsSolid(s: string)
    requires s != "" && !IsWhitespace(s[0])
    ensures Solid(s[..WordLength(s)]) && (s[WordLength(s)..] == "" || IsWhitespace(s[WordLength(s)..][0]))
  {
    if |s| > 1 && !IsWhitespace(s[1]) {
      WordIsSolid(s[1..]);
      assert s[..WordLength(s)] == [s[0]] + s[1..][..WordLength(s[1..])];
      assert s[WordLength(s)..] == s[1..][WordLength(s[1..])..];
    } else {
      assert |s| == 1 ==> s[1..] == "";
      assert WordLength(s[1..]) == 0 && WordLength(s) == 1;
      assert s[..1] == [s[0]];
    }
  }

  // ------------------------------------------------------- blanks left unescaped

  /** White space the kernel does not escape. */
  predicate Blank(c: char) {
    IsWhitespace(c) && !Special(c)
  }

  predicate Clean(path: string) {
    forall c :: c in path ==> !Blank(c)
  }

  lemma {:induction false} EscapeConcat(a: string, b: string)
    ensures Escape(a + b) == Escape(a) + Escape(b)
    decreases |a|
  {
    if a == "" {
      assert a + b == b;
    } else {
      assert (a + b)[0] == a[0] && (a + b)[1..] == a[1..] + b;
      EscapeConcat(a[1..], b);
    }
  }

  lemma {:induction false} EscapeIsSolid(path: string)
    requires Clean(path)
    ensures path != "" ==> Escape(path) != ""
    ensures forall c :: c in Escape(path) ==> !IsWhitespace(c)
  {
    if path != "" {
      assert path[0] in path;
      EscapeIsSolid(path[1..]);
      if Special(path[0]) {
        var piece := "\\" + OctalDigits(path[0] as int);
        assert forall c :: c in piece ==> c == '\\' || 48 <= c as int <= 56;
      }
    }
  }

  lemma {:induction false} EscapeIsOneLine(path: string)
    ensures '\n' !in Escape(path)
  {
    if path != "" {
      EscapeIsOneLine(path[1..]);
      if Special(path[0]) {
        var piece := "\\" + OctalDigits(path[0] as int);
        assert forall c :: c in piece ==> c == '\\' || 48 <= c as int <= 56;
      }
    }
  }

  /** What comes before the first blank. */
  function Head(path: string): (n: nat)
    ensures n <= |path| && Clean(path[..n])
    ensures n < |path| ==> Blank(path[n])
    ensures n == |path| ==> Clean(path)
  {
    if path == "" || Blank(path[0]) then 0
    else
      var n := 1 + Head(path[1..]);
      assert path[..n] == [path[0]] + path[1..][..n - 1] && path == [path[0]] + path[1..];
      n
  }

  /**
   * The first word of an escaped path with a blank in it is a shorter path,
   * escaped: what precedes the first blank, or something after the leading ones.
   */
  lemma {:induction false} FirstPiece(path: string) returns (piece: string)
    requires !Clean(path) && Words(Escape(path)) != []
    ensures 0 < |piece| < |path| && Words(Escape(path))[0] == Escape(piece)
    ensures if Blank(path[0]) then !Blank(piece[0]) else piece <= path && Blank(path[|piece|])
  {
    if Blank(path[0]) {
      assert Escape(path) == [path[0]] + Escape(path[1..]);
      assert Escape(path)[1..] == Escape(path[1..]);
      assert Words(Escape(path)) == Words(Escape(path[1..]));
      assert forall c :: c in path[1..] ==> c in path;
      if Clean(path[1..]) {
        piece := path[1..];
        WholeWord(piece);
        assert piece != "" ==> piece[0] in piece;
        assert Escape("") == "" && Words("") == [];
      } else {
        piece := FirstPiece(path[1..]);
      }
    } else {
      var n := Head(path);
      piece := path[..n];
      assert n > 0 && path == piece + path[n..];
      EscapeConcat(piece, path[n..]);
      EscapeIsSolid(piece);
      assert path[n..][0] == path[n] && Escape(path[n..]) == [path[n]] + Escape(path[n..][1..]);
      FirstWord(Escape(piece), Escape(path[n..]));
    }
  }

  lemma WholeWord(path: string)
    requires Clean(path) && Words(Escape(path)) != []
    ensures Words(Escape(path)) == [Escape(path)]
  {
    EscapeIsSolid(path);
    assert path != "" by {
      assert Escape("") == "" && Words("") == [];
    }
    FirstWord(Escape(path), "");
    assert Escape(path) + "" == Escape(path);
  }

  // --------------------------------------------- what is garbled is no longer path

  /** Beyond ASCII, the first byte of a character is never one that white space has. */
  lemma LeadByte(c: char)
    requires c as int >= 128
    ensures Encoding(c)[0] >= 0xC0 && !Blank(Encoding(c)[0] as char)
    ensures Encoding(c)[0] == c as int ==> c as int == 0xC3
  {
  }

  lemma GarbledHead(path: string)
    requires path != ""
    ensures Garbled(path) != ""
    ensures Garbled(path)[0] == if path[0] as int < 128 then path[0] else Encoding(path[0])[0] as char
  {
    if path[0] as int >= 128 {
      LatinLength(Encoding(path[0]));
      assert Latin(Encoding(path[0]))[0] == Encoding(path[0])[0] as char;
    }
  }

  lemma {:induction false} GarbledConcat(a: string, b: string)
    ensures Garbled(a + b) == Garbled(a) + Garbled(b)
    decreases |a|
  {
    if a == "" {
      assert a + b == b;
    } else {
      assert (a + b)[0] == a[0] && (a + b)[1..] == a[1..] + b;
      GarbledConcat(a[1..], b);
    }
  }

  predicate EchoChar(c: char) {
    c as int == 0xC2 || c as int == 0xC3 || c as int == 0x82 || c as int == 0x83
  }

  /** Four characters whose encodings are made of themselves. */
  predicate Echo(s: string) {
    forall c :: c in s ==> EchoChar(c)
  }

  lemma EchoOne(c: char)
    requires EchoChar(c)
    ensures |Latin(Encoding(c))| == 2 && Echo(Latin(Encoding(c)))
  {
    var bytes := Encoding(c);
    assert |bytes| == 2 && bytes[1..] == [bytes[1]] && bytes[1..][1..] == [];
    assert Latin(bytes) == [bytes[0] as char] + Latin(bytes[1..]);
    assert Latin(bytes[1..]) == [bytes[1] as char] + Latin([]);
  }

  lemma {:induction false} EchoGarbled(s: string)
    requires Echo(s)
    ensures |Garbled(s)| == 2 * |s| && Echo(Garbled(s))
  {
    if s != "" {
      assert s[0] in s && forall c :: c in s[1..] ==> c in s;
      EchoOne(s[0]);
      EchoGarbled(s[1..]);
    }
  }

  /** A text that starts like its own garbling, beyond ASCII at once, is of those four characters. */
  lemma {:induction false} StartsEcho(s: string, j: nat)
    requires s != "" && s[0] as int == 0xC3 && s <= Garbled(s) && j <= |s|
    ensures Echo(s[..j])
  {
    if j == 1 {
      assert s[..1] == [s[0]];
    } else if j > 1 {
      StartsEcho(s, j - 1);
      EchoGarbled(s[..j - 1]);
      assert s == s[..j - 1] + s[j - 1..];
      GarbledConcat(s[..j - 1], s[j - 1..]);
      var g := Garbled(s[..j - 1]);
      assert s[j - 1] == Garbled(s)[j - 1] == g[j - 1] && g[j - 1] in g;
      assert s[..j] == s[..j - 1] + [s[j - 1]];
    }
  }

  /** Where a text beyond ASCII, if it starts like its own garbling, ends in it, no blank follows. */
  lemma {:induction false} NoBlankAfter(s: string)
    requires !IsAscii(s) && s <= Garbled(s)
    ensures |Garbled(s)| > |s| && !Blank(Garbled(s)[|s|])
  {
    GarbledLength(s);
    GarbledHead(s);
    if s[0] as int < 128 {
      assert s == [s[0]] + s[1..] && Garbled(s) == [s[0]] + Garbled(s[1..]);
      assert Garbled(s)[1..] == Garbled(s[1..]) && s[1..] <= Garbled(s[1..]);
      assert !IsAscii(s[1..]) by {
        assert forall c :: c in s <==> c == s[0] || c in s[1..];
      }
      NoBlankAfter(s[1..]);
    } else {
      LeadByte(s[0]);
      StartsEcho(s, |s|);
      assert s[..|s|] == s;
      EchoGarbled(s);
      assert Garbled(s)[|s|] in Garbled(s);
    }
  }

  /** What is taken for a path with a blank in it is another path, whatever else is in it. */
  lemma PieceIsAnother(path: string, piece: string)
    requires 0 < |piece| < |path|
    requires if Blank(path[0]) then !Blank(piece[0]) else piece <= path && Blank(path[|piece|])
    ensures Garbled(piece) != path
  {
    GarbledLength(piece);
    GarbledHead(piece);
    if Blank(path[0]) {
      if piece[0] as int >= 128 {
        LeadByte(piece[0]);
      }
    } else if !IsAscii(piece) && piece <= Garbled(piece) {
      NoBlankAfter(piece);
    }
  }

  // ------------------------------------------------------------- round trip

  /** An entry the table can show: fields that stay one field, and any path at all. */
  predicate Showable(e: MountEntry) {
    && Solid(e.source) && Solid(e.filesystem)
    && OptionsField(e.options) != ""
    && (forall o :: o in e.options ==> ',' !in o && forall c :: c in o ==> !IsWhitespace(c))
    && e.mountPoint != ""
  }

  function LastFields(e: MountEntry): seq<string> {
    [e.filesystem, OptionsField(e.options), "0", "0"]
  }

  lemma FieldsAreSolid(e: MountEntry)
    requires Showable(e)
    ensures forall f :: f in LastFields(e) ==> Solid(f)
  {
    var options := OptionsField(e.options);
    forall c | c in options ensures !IsWhitespace(c) {
      JoinChars(e.options, ',', c);
    }
    assert Solid("0");
  }

  lemma LineInThree(e: MountEntry)
    ensures PrintLine(e) == e.source + (" " + (Escape(e.mountPoint) + (" " + Join(LastFields(e), ' '))))
  {
    var fields, path, last := PrintFields(e), Escape(e.mountPoint), Join(LastFields(e), ' ');
    assert fields[1..][1..] == LastFields(e) && fields[1..][0] == path;
    assert Join(fields[1..], ' ') == path + " " + last;
    Regroup(path, " ", last);
    assert PrintLine(e) == e.source + " " + Join(fields[1..], ' ');
    Regroup(e.source, " ", path + (" " + last));
  }

  /** The words of a printed line: the path's own between the source and the rest. */
  lemma WordsOfLine(e: MountEntry)
    requires Showable(e)
    ensures Words(PrintLine(e)) == [e.source] + Words(Escape(e.mountPoint)) + LastFields(e)
  {
    LineInThree(e);
    FieldsAreSolid(e);
    var last, path := Join(LastFields(e), ' '), Escape(e.mountPoint);
    WordsOfJoin(LastFields(e));
    WordsConcat(path, last);
    FirstWord(e.source, " " + (path + (" " + last)));
    WordsSkip(path + (" " + last));
    Regroup([e.source], Words(path), LastFields(e));
  }

  function Shown(e: MountEntry): MountEntry {
    e.(mountPoint := Garbled(e.mountPoint))
  }

  lemma LineParses(e: MountEntry)
    requires Showable(e) && Clean(e.mountPoint)
    ensures ParseLine(PrintLine(e)) == Some(Shown(e))
  {
    WordsOfLine(e);
    EscapeIsSolid(e.mountPoint);
    FirstWord(Escape(e.mountPoint), "");
    assert Escape(e.mountPoint) + "" == Escape(e.mountPoint);
    UnescapeOfEscape(e.mountPoint);
    SplitOfJoin(e.options, ',');
  }

  lemma ZeroIsZero()
    ensures Unescaped(Utf8("0")) == "0" && Split("0", ',') == ["0"]
  {
    assert Escape("0") == "0" by {
      assert "0"[1..] == "";
    }
    assert IsAscii("0");
    SurvivesExactly("0");
    SplitWhole("0", ',');
  }

  /** Nothing but blanks: the path is gone, and the next field is taken for it. */
  lemma BlankPathIsLost(e: MountEntry)
    requires Showable(e) && Words(Escape(e.mountPoint)) == []
    ensures ParseLine(PrintLine(e)).Some? && ParseLine(PrintLine(e)).value != e
  {
    WordsOfLine(e);
    assert Words(PrintLine(e)) == [e.source] + LastFields(e);
    var parsed := ParseLine(PrintLine(e)).value;
    ZeroIsZero();
    assert parsed.options == ["0"] && parsed.filesystem == OptionsField(e.options);
    assert Escape("0") == "0" by {
      assert "0"[1..] == "";
    }
    WordsOfJoin(["0"]);
  }

  /** An unescaped blank: what is taken for the path is another one. */
  lemma BlankIsLost(e: MountEntry)
    requires Showable(e) && !Clean(e.mountPoint)
    ensures ParseLine(PrintLine(e)).Some? && ParseLine(PrintLine(e)).value != e
  {
    if Words(Escape(e.mountPoint)) == [] {
      BlankPathIsLost(e);
    } else {
      WordsOfLine(e);
      var piece := FirstPiece(e.mountPoint);
      UnescapeOfEscape(piece);
      PieceIsAnother(e.mountPoint, piece);
      assert ParseLine(PrintLine(e)).value.mountPoint == Garbled(piece);
    }
  }

  /** A line survives exactly when its path is ASCII and free of unescaped blanks. */
  lemma LineSurvivesExactly(e: MountEntry)
    requires Showable(e)
    ensures ParseLine(PrintLine(e)).Some?
    ensures ParseLine(PrintLine(e)).value == e <==> IsAscii(e.mountPoint) && Clean(e.mountPoint)
  {
    if Clean(e.mountPoint) {
      LineParses(e);
      GarbledLength(e.mountPoint);
    } else {
      BlankIsLost(e);
    }
  }

  lemma LineIsOneLine(e: MountEntry)
    requires Showable(e)
    ensures '\n' !in PrintLine(e) && Stripped(PrintLine(e)) == PrintLine(e)
  {
    FieldsAreSolid(e);
    EscapeIsOneLine(e.mountPoint);
    forall f | f in PrintFields(e) ensures '\n' !in f {
      assert f == e.source || f == Escape(e.mountPoint) || f in LastFields(e);
      assert IsWhitespace('\n');
    }
    if '\n' in PrintLine(e) {
      JoinChars(PrintFields(e), ' ', '\n');
    }
    LastOfLine(PrintFields(e));
  }

  lemma {:induction false} LastOfLine(parts: seq<string>)
    requires parts != [] && parts[|parts| - 1] == "0"
    ensures Join(parts, ' ') != "" && Join(parts, ' ')[|Join(parts, ' ')| - 1] == '0'
    decreases |parts|
  {
    if |parts| > 1 {
      LastOfLine(parts[1..]);
    }
  }

  lemma {:induction false} PrintedLines(entries: seq<MountEntry>)
    ensures |Printed(entries)| == |entries|
    ensures forall i :: 0 <= i < |entries| ==> Printed(entries)[i] == PrintLine(entries[i])
    decreases |entries|
  {
    if entries != [] {
      PrintedLines(entries[1..]);
    }
  }

  lemma LinesOfPrint(entries: seq<MountEntry>)
    requires forall e :: e in entries ==> Showable(e)
    ensures Lines(Print(entries)) == Printed(entries)
  {
    var lines, parts := Printed(entries), Printed(entries) + [""];
    PrintedLines(entries);
    PrintIsJoin(entries);
    forall i | 0 <= i < |lines| ensures '\n' !in lines[i] && Stripped(lines[i]) == lines[i] {
      LineIsOneLine(entries[i]);
    }
    SplitOfJoin(parts, '\n');
    var stripped := seq(|lines|, i requires 0 <= i < |lines| => Stripped(parts[i]));
    assert stripped == lines && lines + [] == lines;
  }

  lemma {:induction false} LinesParse(lines: seq<string>, i: nat)
    requires (forall line :: line in lines ==> ParseLine(line).Some?) && i < |lines|
    ensures |ParseLines(lines)| == |lines| && ParseLine(lines[i]) == Some(ParseLines(lines)[i])
    decreases |lines|
  {
    assert lines[0] in lines && forall line :: line in lines[1..] ==> line in lines;
    if |lines| == 1 {
      assert ParseLines(lines[1..]) == [];
    } else {
      LinesParse(lines[1..], if i == 0 then 0 else i - 1);
    }
  }

  /** What comes back of a printed table: an entry for every entry, in order. */
  lemma ParseOfPrint(entries: seq<MountEntry>, i: nat)
    requires (forall e :: e in entries ==> Showable(e)) && i < |entries|
    ensures |Parse(Print(entries))| == |entries| && Some(Parse(Print(entries))[i]) == ParseLine(PrintLine(entries[i]))
    ensures Clean(entries[i].mountPoint) ==> Parse(Print(entries))[i] == Shown(entries[i])
  {
    LinesOfPrint(entries);
    PrintedLines(entries);
    var lines := Printed(entries);
    forall line | line in lines ensures ParseLine(line).Some? {
      var k := IndexOf(lines, line);
      assert entries[k] in entries;
      LineSurvivesExactly(entries[k]);
    }
    LinesParse(lines, i);
    assert entries[i] in entries;
    if Clean(entries[i].mountPoint) {
      LineParses(entries[i]);
    }
  }

  predicate Survives(e: MountEntry) {
    IsAscii(e.mountPoint) && Clean(e.mountPoint)
  }

  /**
   * Parser and printer undo each other exactly when every mount point is ASCII
   * and has no vertical tab, form feed or carriage return in it.  (White space
   * beyond ASCII, which is not escaped either, is ruled out with the rest.)
   */
  lemma RoundTripExactly(entries: seq<MountEntry>)
    requires forall e :: e in entries ==> Showable(e)
    ensures Parse(Print(entries)) == entries <==> forall e :: e in entries ==> Survives(e)
  {
    var parsed := Parse(Print(entries));
    if entries == [] {
      assert parsed == [];
    } else {
      ParseOfPrint(entries, 0);
      forall i | 0 <= i < |entries| ensures parsed[i] == entries[i] <==> Survives(entries[i]) {
        assert entries[i] in entries;
        ParseOfPrint(entries, i);
        LineSurvivesExactly(entries[i]);
      }
      if parsed == entries {
        forall e | e in entries ensures Survives(e) {
          var i := IndexOf(entries, e);
          assert parsed[i] == entries[i];
        }
      } else {
        var i :| 0 <= i < |entries| && parsed[i] != entries[i];
        assert entries[i] in entries;
      }
    }
  }

  lemma OneLost(e: MountEntry)
    requires Showable(e) && !Survives(e)
    ensures Parse(Print([e])) != [e]
  {
    assert [e][0] == e && forall x :: x in [e] ==> x == e;
    RoundTripExactly([e]);
  }

  lemma OneShowable(mountPoint: string)
    requires mountPoint != ""
    ensures Showable(MountEntry("sda", mountPoint, "xfs", ["rw"]))
  {
    assert Solid("sda") && Solid("xfs") && Solid("rw") && OptionsField(["rw"]) == "rw";
  }

  /** One entry that does not survive: a mount point with an accent. */
  lemma AccentIsLost()
    ensures var e := MountEntry("sda", "é", "xfs", ["rw"]); Showable(e) && Parse(Print([e])) != [e]
  {
    assert "é"[0] in "é" && 'é' as int == 233;
    OneShowable("é");
    OneLost(MountEntry("sda", "é", "xfs", ["rw"]));
  }

  /** And one with a carriage return, which ends the field. */
  lemma ReturnIsLost()
    ensures var e := MountEntry("sda", "a\rb", "xfs", ["rw"]); Showable(e) && Parse(Print([e])) != [e]
  {
    assert "a\rb"[1] in "a\rb" && Blank('\r');
    assert IsAscii("a\rb") && !Clean("a\rb");
    OneShowable("a\rb");
    OneLost(MountEntry("sda", "a\rb", "xfs", ["rw"]));
  }

  // ------------------------------------------------------------- line by line

  lemma {:induction false} WordsTrail(a: string, c: char)
    requires IsWhitespace(c)
    ensures Words(a + [c]) == Words(a)
    decreases |a|
  {
    var s := a + [c];
    if a == "" {
      assert s == [c] && [c][1..] == "" && SkipBlank([c]) == "";
    } else if IsWhitespace(a[0]) {
      assert s[0] == a[0] && s[1..] == a[1..] + [c];
      WordsTrail(a[1..], c);
      assert Words(a) == Words(a[1..]) && Words(s) == Words(s[1..]);
    } else {
      var n := WordLength(a);
      var word, rest := a[..n], a[n..];
      WordIsSolid(a);
      assert a == word + rest && s == word + (rest + [c]);
      FirstWord(word, rest);
      FirstWord(word, rest + [c]);
      WordsTrail(rest, c);
    }
  }

  lemma StrippedParses(line: string)
    ensures ParseLine(Stripped(line)) == ParseLine(line)
  {
    if Stripped(line) != line {
      assert line == Stripped(line) + ['\r'];
      WordsTrail(Stripped(line), '\r');
    }
  }

  function EntryOf(line: string): seq<MountEntry> {
    match ParseLine(line) case Some(e) => [e] case None => []
  }

  lemma OneLineMore(line: string, parts: seq<string>)
    requires |parts| >= 1
    ensures LinesOf([line] + parts) == [Stripped(line)] + LinesOf(parts)
  {
    var last := |parts| - 1;
    var here := seq(last, i requires 0 <= i < last => Stripped(parts[i]));
    var all := seq(last + 1, i requires 0 <= i < last + 1 => Stripped(([line] + parts)[i]));
    assert all == [Stripped(line)] + here;
  }

  /** Each line stands for itself: the entries of a table are those of its lines, ended by a newline or not. */
  lemma LineByLine(line: string, rest: string)
    requires '\n' !in line
    ensures Parse(line + "\n" + rest) == EntryOf(line) + Parse(rest)
    ensures Parse(line) == EntryOf(line)
  {
    assert line + "\n" + rest == line + ['\n'] + rest;
    SplitPart(line, rest, '\n');
    OneLineMore(line, Split(rest, '\n'));
    StrippedParses(line);
    assert ([Stripped(line)] + Lines(rest))[1..] == Lines(rest);
    OneLineAlone(line);
  }

  lemma OneLineAlone(line: string)
    requires '\n' !in line
    ensures Parse(line) == EntryOf(line)
  {
    SplitWhole(line, '\n');
    if line == "" {
      assert Lines(line) == [] && Words("") == [];
    } else {
      assert Lines(line) == [line];
      assert ParseLines([line][1..]) == [];
    }
  }

  /** Two words are no entry; three are one without options; a fourth is the options. */
  lemma FieldsOfALine(a: string, b: string, c: string, d: string)
    requires Solid(a) && Solid(b) && Solid(c) && Solid(d)
    ensures ParseLine(Join([a, b], ' ')).None?
    ensures ParseLine(Join([a, b, c], ' ')) == Some(MountEntry(a, Unescaped(Utf8(b)), c, [""]))
    ensures ParseLine(Join([a, b, c, d], ' ')) == Some(MountEntry(a, Unescaped(Utf8(b)), c, Split(d, ',')))
  {
    WordsOfJoin([a, b]);
    WordsOfJoin([a, b, c]);
    WordsOfJoin([a, b, c, d]);
  }
}

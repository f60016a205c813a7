/** Base64 as the program's `STANDARD` engine does it: the alphabet of section 4 of RFC 4648,
    padding required, and (section 3.5) unused trailing bits must be zero. */
module Base64 {
  import opened ByteText

  type Byte = b: int | 0 <= b < 256
  type Bytes = seq<Byte>
  type Sextet = i: int | 0 <= i < 64

  function Symbol(i: Sextet): (c: char)
    ensures IsSymbol(c) && SymbolValue(c) == i
  {
    if i < 26 then ('A' as int + i) as char
    else if i < 52 then ('a' as int + (i - 26)) as char
    else if i < 62 then ('0' as int + (i - 52)) as char
    else if i == 62 then '+'
    else '/'
  }

  predicate IsSymbol(c: char) {
    'A' <= c <= 'Z' || 'a' <= c <= 'z' || '0' <= c <= '9' || c == '+' || c == '/'
  }

  function SymbolValue(c: char): Sextet
    requires IsSymbol(c)
  {
    if 'A' <= c <= 'Z' then c as int - 'A' as int
    else if 'a' <= c <= 'z' then c as int - 'a' as int + 26
    else if '0' <= c <= '9' then c as int - '0' as int + 52
    else if c == '+' then 62
    else 63
  }

  lemma SymbolOfValue(c: char)
    requires IsSymbol(c)
    ensures Symbol(SymbolValue(c)) == c
  {
    // two symbols with one value would be the same character
    assert SymbolValue(Symbol(SymbolValue(c))) == SymbolValue(c);
  }

  // ----- blocks of three, two and one bytes

  function Block3(a: Byte, b: Byte, c: Byte): (s: Text)
    ensures |s| == 4
  {
    [Symbol(a / 4), Symbol(a % 4 * 16 + b / 16), Symbol(b % 16 * 4 + c / 64), Symbol(c % 64)]
  }

  function Block2(a: Byte, b: Byte): (s: Text)
    ensures |s| == 4
  {
    [Symbol(a / 4), Symbol(a % 4 * 16 + b / 16), Symbol(b % 16 * 4), '=']
  }

  function Block1(a: Byte): (s: Text)
    ensures |s| == 4
  {
    [Symbol(a / 4), Symbol(a % 4 * 16), '=', '=']
  }

  function Encode(b: Bytes): (s: Text)
    ensures |s| == (|b| + 2) / 3 * 4
  {
    if |b| == 0 then ""
    else if |b| == 1 then Block1(b[0])
    else if |b| == 2 then Block2(b[0], b[1])
    else Block3(b[0], b[1], b[2]) + Encode(b[3..])
  }

  /** The bytes of one group of four characters; only the last group may be padded. */
  function Group(s: Text, last: bool): Option<Bytes>
    requires |s| == 4
  {
    if !IsSymbol(s[0]) || !IsSymbol(s[1]) then None
    else
      var i, j := SymbolValue(s[0]), SymbolValue(s[1]);
      if IsSymbol(s[2]) && IsSymbol(s[3]) then
        var k, l := SymbolValue(s[2]), SymbolValue(s[3]);
        Some([i * 4 + j / 16, j % 16 * 16 + k / 4, k % 4 * 64 + l])
      else if last && IsSymbol(s[2]) && s[3] == '=' && SymbolValue(s[2]) % 4 == 0 then
        Some([i * 4 + j / 16, j % 16 * 16 + SymbolValue(s[2]) / 4])
      else if last && s[2] == '=' && s[3] == '=' && j % 16 == 0 then
        Some([i * 4 + j / 16])
      else None
  }

  function Decode(s: Text): Option<Bytes> {
    if s == "" then Some([])
    else if |s| < 4 then None
    else
      match Group(s[..4], |s| == 4)
      case None => None
      case Some(g) =>
        match Decode(s[4..])
        case None => None
        case Some(rest) => Some(g + rest)
  }

  // the bit shuffling, on numbers alone
  lemma SextetsGiveOctets(a: Byte, b: Byte, c: Byte)
    ensures var x, y := a % 4 * 16 + b / 16, b % 16 * 4 + c / 64;
      && a / 4 * 4 + x / 16 == a
      && x % 16 * 16 + y / 4 == b
      && y % 4 * 64 + c % 64 == c
  {
    var x, y := a % 4 * 16 + b / 16, b % 16 * 4 + c / 64;
    assert x / 16 == a % 4 && x % 16 == b / 16;
    assert y / 4 == b % 16 && y % 4 == c / 64;
  }

  lemma OctetsGiveSextets(i: Sextet, j: Sextet, k: Sextet, l: Sextet)
    ensures var a, b, c := i * 4 + j / 16, j % 16 * 16 + k / 4, k % 4 * 64 + l;
      && a / 4 == i && a % 4 * 16 + b / 16 == j
      && b % 16 * 4 + c / 64 == k && c % 64 == l
  {
    var a, b, c := i * 4 + j / 16, j % 16 * 16 + k / 4, k % 4 * 64 + l;
    assert a / 4 == i && a % 4 == j / 16;
    assert b / 16 == j % 16 && b % 16 == k / 4;
    assert c / 64 == k % 4 && c % 64 == l;
  }

  lemma PaddingIsNoSymbol()
    ensures !IsSymbol('=')
  {
  }

  lemma GroupOfSymbols(i: Sextet, j: Sextet, k: Sextet, l: Sextet, last: bool)
    ensures Group([Symbol(i), Symbol(j), Symbol(k), Symbol(l)], last)
         == Some([i * 4 + j / 16, j % 16 * 16 + k / 4, k % 4 * 64 + l])
    ensures k % 4 == 0 ==>
      Group([Symbol(i), Symbol(j), Symbol(k), '='], true) == Some([i * 4 + j / 16, j % 16 * 16 + k / 4])
    ensures j % 16 == 0 ==>
      Group([Symbol(i), Symbol(j), '=', '='], true) == Some([i * 4 + j / 16])
  {
    hide Symbol, SymbolValue, IsSymbol;
    PaddingIsNoSymbol();
  }

  lemma GroupOfBlock3(a: Byte, b: Byte, c: Byte, last: bool)
    ensures Group(Block3(a, b, c), last) == Some([a, b, c])
  {
    hide Group, Symbol;
    SextetsGiveOctets(a, b, c);
    GroupOfSymbols(a / 4, a % 4 * 16 + b / 16, b % 16 * 4 + c / 64, c % 64, last);
  }

  lemma GroupOfBlock2(a: Byte, b: Byte)
    ensures Group(Block2(a, b), true) == Some([a, b])
  {
    hide Group, Symbol;
    SextetsGiveOctets(a, b, 0);
    GroupOfSymbols(a / 4, a % 4 * 16 + b / 16, b % 16 * 4, 0, true);
  }

  lemma GroupOfBlock1(a: Byte)
    ensures Group(Block1(a), true) == Some([a])
  {
    hide Group, Symbol;
    SextetsGiveOctets(a, 0, 0);
    GroupOfSymbols(a / 4, a % 4 * 16, 0, 0, true);
  }

  lemma {:induction false} DecodeEncode(b: Bytes)
    ensures Decode(Encode(b)) == Some(b)
  {
    hide Symbol, SymbolValue, IsSymbol, Group, Block1, Block2, Block3;
    var s := Encode(b);
    if |b| >= 3 {
      DecodeEncode(b[3..]);
      assert s[..4] == Block3(b[0], b[1], b[2]) && s[4..] == Encode(b[3..]);
      GroupOfBlock3(b[0], b[1], b[2], |s| == 4);
      assert b == [b[0], b[1], b[2]] + b[3..];
    } else if |b| > 0 {
      if |b| == 2 {
        GroupOfBlock2(b[0], b[1]);
        assert b == [b[0], b[1]];
      } else {
        GroupOfBlock1(b[0]);
        assert b == [b[0]];
      }
      assert s[..4] == s && s[4..] == "";
      assert Group(s[..4], true) == Some(b) && Decode(s[4..]) == Some([]);
      assert b + [] == b;
    }
  }

  lemma Block3OfSextets(i: Sextet, j: Sextet, k: Sextet, l: Sextet)
    ensures Block3(i * 4 + j / 16, j % 16 * 16 + k / 4, k % 4 * 64 + l)
         == [Symbol(i), Symbol(j), Symbol(k), Symbol(l)]
  {
    hide Symbol, SymbolValue, IsSymbol;
    OctetsGiveSextets(i, j, k, l);
  }

  lemma Block3OfGroup(s: Text)
    requires |s| == 4 && IsSymbol(s[0]) && IsSymbol(s[1]) && IsSymbol(s[2]) && IsSymbol(s[3])
    ensures Group(s, false).Some? && s == Encode(Group(s, false).value)
  {
    hide Symbol, SymbolValue, IsSymbol, Block3;
    var i, j, k, l := SymbolValue(s[0]), SymbolValue(s[1]), SymbolValue(s[2]), SymbolValue(s[3]);
    var g := Group(s, false).value;
    assert s == [Symbol(i), Symbol(j), Symbol(k), Symbol(l)] by {
      SymbolOfValue(s[0]);
      SymbolOfValue(s[1]);
      SymbolOfValue(s[2]);
      SymbolOfValue(s[3]);
    }
    Block3OfSextets(i, j, k, l);
    assert Block3(g[0], g[1], g[2]) == s;
    assert g[3..] == [] && Encode([]) == "";
    hide Group;
    assert Encode(g) == Block3(g[0], g[1], g[2]) + "";
  }

  lemma Block2OfGroup(s: Text)
    requires |s| == 4 && IsSymbol(s[0]) && IsSymbol(s[1]) && IsSymbol(s[2]) && s[3] == '='
    requires SymbolValue(s[2]) % 4 == 0
    ensures var i, j, k := SymbolValue(s[0]), SymbolValue(s[1]), SymbolValue(s[2]);
      s == Block2(i * 4 + j / 16, j % 16 * 16 + k / 4)
  {
    hide Symbol, SymbolValue, IsSymbol;
    OctetsGiveSextets(SymbolValue(s[0]), SymbolValue(s[1]), SymbolValue(s[2]), 0);
    SymbolOfValue(s[0]);
    SymbolOfValue(s[1]);
    SymbolOfValue(s[2]);
  }

  lemma Block1OfGroup(s: Text)
    requires |s| == 4 && IsSymbol(s[0]) && IsSymbol(s[1]) && s[2] == '=' && s[3] == '='
    requires SymbolValue(s[1]) % 16 == 0
    ensures s == Block1(SymbolValue(s[0]) * 4 + SymbolValue(s[1]) / 16)
  {
    hide Symbol, SymbolValue, IsSymbol;
    OctetsGiveSextets(SymbolValue(s[0]), SymbolValue(s[1]), 0, 0);
    SymbolOfValue(s[0]);
    SymbolOfValue(s[1]);
  }

  /** A group that decodes is the block of its bytes: no second spelling is accepted. */
  lemma BlockOfGroup(s: Text, last: bool)
    requires |s| == 4 && Group(s, last).Some?
    ensures var g := Group(s, last).value;
      && 1 <= |g| <= 3 && (|g| < 3 ==> last)
      && s == Encode(g)
  {
    hide Symbol, SymbolValue, IsSymbol;
    var g := Group(s, last).value;
    if IsSymbol(s[2]) && IsSymbol(s[3]) {
      Block3OfGroup(s);
      assert g == Group(s, false).value;
    } else if IsSymbol(s[2]) {
      Block2OfGroup(s);
    } else {
      Block1OfGroup(s);
    }
  }

  /** Decoding is the exact inverse of encoding: a text decodes to `b` only if it is the
      encoding of `b`. */
  lemma {:induction false} EncodeDecode(s: Text)
    requires Decode(s).Some?
    ensures Encode(Decode(s).value) == s
  {
    hide Symbol, SymbolValue, IsSymbol, Group, Block1, Block2, Block3;
    if s != "" {
      var g, rest := Group(s[..4], |s| == 4).value, Decode(s[4..]).value;
      BlockOfGroup(s[..4], |s| == 4);
      EncodeDecode(s[4..]);
      if |s| == 4 {
        assert g + rest == g && s[..4] == s;
      } else {
        assert (g + rest)[3..] == rest && g[3..] == [];
        assert s == s[..4] + s[4..];
      }
    }
  }

  /** An encoded text holds symbols and padding only, so it can stand in any line. */
  lemma {:induction false} EncodeSymbols(b: Bytes)
    ensures forall c :: c in Encode(b) ==> IsSymbol(c) || c == '='
  {
    if |b| >= 3 { EncodeSymbols(b[3..]); }
  }

  // ----- the alphabet and the order of the bits

  /** Table 1 in section 4 of RFC 4648, by character codes. */
  lemma SymbolExactly(i: Sextet)
    ensures i < 26 ==> Symbol(i) as int == 65 + i
    ensures 26 <= i < 52 ==> Symbol(i) as int == 97 + (i - 26)
    ensures 52 <= i < 62 ==> Symbol(i) as int == 48 + (i - 52)
    ensures Symbol(62) == '+' && Symbol(63) == '/'
    ensures Symbol(0) == 'A' && Symbol(26) == 'a' && Symbol(52) == '0'
  {
  }

  lemma Digits64(d: Sextet, e: Sextet, f: Sextet, g: Sextet)
    ensures var n := d * 262144 + e * 4096 + f * 64 + g;
      n / 262144 == d && n / 4096 % 64 == e && n / 64 % 64 == f && n % 64 == g
  {
    var n := d * 262144 + e * 4096 + f * 64 + g;
    assert n / 64 == d * 4096 + e * 64 + f;
    assert n / 4096 == d * 64 + e;
  }

  lemma Bits(a: Byte, b: Byte, c: Byte)
    ensures a * 65536 + b * 256 + c
         == a / 4 * 262144 + (a % 4 * 16 + b / 16) * 4096 + (b % 16 * 4 + c / 64) * 64 + c % 64
  {
  }

  /** Three bytes are one number of 24 bits, written as four digits to the base 64, the highest
      first. */
  lemma EncodeThree(a: Byte, b: Byte, c: Byte, rest: Bytes)
    ensures var n := a * 65536 + b * 256 + c;
      && n / 262144 < 64
      && Encode([a, b, c] + rest) == [Symbol(n / 262144), Symbol(n / 4096 % 64), Symbol(n / 64 % 64), Symbol(n % 64)] + Encode(rest)
  {
    hide Symbol, Encode, Block3;
    Bits(a, b, c);
    Digits64(a / 4, a % 4 * 16 + b / 16, b % 16 * 4 + c / 64, c % 64);
    EncodeStep(a, b, c, rest);
    Block3Symbols(a, b, c);
  }

  lemma EncodeStep(a: Byte, b: Byte, c: Byte, rest: Bytes)
    ensures Encode([a, b, c] + rest) == Block3(a, b, c) + Encode(rest)
  {
    hide Block3;
    assert ([a, b, c] + rest)[3..] == rest;
  }

  lemma Block3Symbols(a: Byte, b: Byte, c: Byte)
    ensures Block3(a, b, c) == [Symbol(a / 4), Symbol(a % 4 * 16 + b / 16), Symbol(b % 16 * 4 + c / 64), Symbol(c % 64)]
  {
  }

  lemma EndBits(a: Byte, b: Byte)
    ensures var n := a * 256 + b;
      n / 1024 == a / 4 && n / 16 % 64 == a % 4 * 16 + b / 16 && n % 16 == b % 16
  {
    var n := a * 256 + b;
    assert n / 16 == a * 16 + b / 16;
  }

  /** Two bytes at the end are filled up with zero bits, and the text with `=`. */
  lemma EncodeTwo(a: Byte, b: Byte)
    ensures var n := a * 256 + b;
      n / 1024 < 64 && Encode([a, b]) == [Symbol(n / 1024), Symbol(n / 16 % 64), Symbol(n % 16 * 4), '=']
  {
    hide Symbol;
    EndBits(a, b);
  }

  /** So is one byte, and nothing is written as nothing. */
  lemma EncodeOne(a: Byte)
    ensures Encode([]) == "" && Encode([a]) == [Symbol(a / 4), Symbol(a * 16 % 64), '=', '=']
  {
    hide Symbol;
    assert a * 16 % 64 == a % 4 * 16;
  }
}

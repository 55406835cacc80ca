/** Numbers as bytes and as text: big-endian 32-bit words, and the number formats of the command line. */
module Words {
  import opened Collections

  type Byte = b: int | 0 <= b < 256
  type Bytes = seq<Byte>

  const WORD_LIMIT := 0x1_0000_0000

  // ---- Big-endian words ----

  predicate Fits(words: seq<nat>) {
    forall i :: 0 <= i < |words| ==> words[i] < WORD_LIMIT
  }

  function WordBytes(w: nat): (b: Bytes)
    requires w < WORD_LIMIT
    ensures |b| == 4
  {
    [w / 256 / 256 / 256, w / 256 / 256 % 256, w / 256 % 256, w % 256]
  }

  function WordAt(b: Bytes, o: nat): (w: nat)
    requires o + 4 <= |b|
    ensures w < WORD_LIMIT
  {
    (((b[o] as int) * 256 + b[o + 1]) * 256 + b[o + 2]) * 256 + b[o + 3]
  }

  function Pack(words: seq<nat>): (b: Bytes)
    requires Fits(words)
    ensures |b| == 4 * |words|
  {
    if words == [] then [] else Pack(words[..|words| - 1]) + WordBytes(words[|words| - 1])
  }

  function Unpack(b: Bytes): (words: seq<nat>)
    requires |b| % 4 == 0
    ensures |words| == |b| / 4
  {
    seq(|b| / 4, i requires 0 <= i < |b| / 4 => WordAt(b, 4 * i))
  }

  /** The byte with the highest value comes first, when writing and when reading. */
  lemma WordRoundTrip(w: nat)
    requires w < WORD_LIMIT
    ensures WordBytes(w)[0] == w / 16777216 % 256 && WordBytes(w)[1] == w / 65536 % 256
    ensures WordBytes(w)[2] == w / 256 % 256 && WordBytes(w)[3] == w % 256
    ensures WordAt(WordBytes(w), 0) == w
  {
    assert w / 256 / 256 == w / 65536 && w / 256 / 256 / 256 == w / 16777216;
  }

  lemma WordIsSum(b: Bytes, o: nat)
    requires o + 4 <= |b|
    ensures var b0: int, b1: int, b2: int, b3: int := b[o], b[o + 1], b[o + 2], b[o + 3];
            WordAt(b, o) == b0 * 16777216 + b1 * 65536 + b2 * 256 + b3
  {
  }

  lemma {:induction false} PackedWord(words: seq<nat>, i: nat)
    requires Fits(words) && i < |words|
    ensures WordAt(Pack(words), 4 * i) == words[i]
  {
    var n := |words| - 1;
    var p, q := Pack(words[..n]), WordBytes(words[n]);
    assert Pack(words) == p + q && |p| == 4 * n;
    if i < n {
      PackedWord(words[..n], i);
      SameWord(p, q, 4 * i);
    } else {
      WordRoundTrip(words[n]);
      LastWord(p, q);
    }
  }

  lemma {:induction false} PackedBytes(words: seq<nat>, i: nat)
    requires Fits(words) && i < |words|
    ensures Pack(words)[4 * i..4 * i + 4] == WordBytes(words[i])
  {
    hide WordBytes;
    var n := |words| - 1;
    var p, q := Pack(words[..n]), WordBytes(words[n]);
    assert Pack(words) == p + q && |p| == 4 * n;
    if i < n {
      PackedBytes(words[..n], i);
      assert (p + q)[4 * i..4 * i + 4] == p[4 * i..4 * i + 4];
    }
  }

  lemma SameWord(p: Bytes, q: Bytes, o: nat)
    requires o + 4 <= |p|
    ensures WordAt(p + q, o) == WordAt(p, o)
  {
  }

  lemma LastWord(p: Bytes, q: Bytes)
    requires |q| == 4
    ensures WordAt(p + q, |p|) == WordAt(q, 0)
  {
  }

  /** Unpacking gives back what was packed. */
  lemma UnpackPack(words: seq<nat>)
    requires Fits(words)
    ensures Unpack(Pack(words)) == words
  {
    forall i | 0 <= i < |words|
      ensures Unpack(Pack(words))[i] == words[i]
    {
      PackedWord(words, i);
    }
  }

  lemma {:induction false} PackConcat(a: seq<nat>, b: seq<nat>)
    requires Fits(a) && Fits(b)
    ensures Fits(a + b) && Pack(a + b) == Pack(a) + Pack(b)
  {
    hide WordBytes;
    if b == [] {
      assert a + b == a;
    } else {
      var n := |b| - 1;
      PackConcat(a, b[..n]);
      assert (a + b)[..|a + b| - 1] == a + b[..n];
    }
  }

  // ---- Decimal text ----

  predicate IsDigit(c: char, base: nat) {
    ('0' <= c <= '9' && c as int - '0' as int < base) ||
    (base == 16 && ('a' <= c <= 'f' || 'A' <= c <= 'F'))
  }

  function DigitValue(c: char): nat {
    if '0' <= c <= '9' then c as int - '0' as int
    else if 'a' <= c <= 'f' then c as int - 'a' as int + 10
    else if 'A' <= c <= 'F' then c as int - 'A' as int + 10
    else 0
  }

  function Number(s: string, base: nat): nat {
    if s == "" then 0 else Number(s[..|s| - 1], base) * base + DigitValue(s[|s| - 1])
  }

  predicate AllDigits(s: string, base: nat) {
    s != "" && forall i :: 0 <= i < |s| ==> IsDigit(s[i], base)
  }

  /** What a number argument means: hexadecimal after 0x, octal after 0, otherwise decimal; no signs or paths. */
  function ParseNumber(arg: string): Result<nat> {
    if arg == "" || arg[0] == '+' || arg[0] == '-' || arg[0] == '/' then Raise("Invalid argument passed to DTImage")
    else if "0x" <= arg || "0X" <= arg then
      if AllDigits(arg[2..], 16) then Ok(Number(arg[2..], 16)) else Raise("invalid literal for int")
    else if "0" <= arg then
      if AllDigits(arg, 8) then Ok(Number(arg, 8)) else Raise("invalid literal for int")
    else if AllDigits(arg, 10) then Ok(Number(arg, 10)) else Raise("invalid literal for int")
  }

  function DigitChar(d: nat): char
    requires d < 10
  {
    "0123456789"[d]
  }

  /** A number as decimal text. */
  function Decimal(n: nat): (s: string)
    ensures s != ""
  {
    if n < 10 then [DigitChar(n)] else Decimal(n / 10) + [DigitChar(n % 10)]
  }

  lemma DigitRoundTrip(d: nat)
    requires d < 10
    ensures IsDigit(DigitChar(d), 10) && DigitValue(DigitChar(d)) == d
    ensures DigitChar(d) == '0' ==> d == 0
  {
  }

  lemma {:induction false} DecimalDigits(n: nat)
    ensures AllDigits(Decimal(n), 10) && Number(Decimal(n), 10) == n
    ensures n > 0 ==> Decimal(n)[0] != '0'
  {
    hide IsDigit, DigitValue, DigitChar;
    if n < 10 {
      DigitRoundTrip(n);
      assert [DigitChar(n)][..0] == "";
      assert Number("", 10) == 0;
    } else {
      DecimalDigits(n / 10);
      DigitRoundTrip(n % 10);
      var s := Decimal(n / 10);
      assert Decimal(n)[..|Decimal(n)| - 1] == s;
    }
  }

  /** Text made of a number means that number: no number but zero starts with the octal prefix. */
  lemma ParseDecimal(n: nat)
    ensures ParseNumber(Decimal(n)) == Ok(n)
  {
    DecimalDigits(n);
    if n == 0 {
      assert Decimal(0) == "0";
      assert "0"[..0] == "";
      assert Number("0", 8) == Number("", 8) * 8 + 0;
    } else {
      var s := Decimal(n);
      assert IsDigit(s[0], 10);
    }
  }

  /** One more digit at the end: what the text says so far counts once more for each unit of the base. */
  lemma NumberNext(s: string, c: char, base: nat)
    requires IsDigit(c, base)
    ensures '0' <= c <= '9' ==> Number(s + [c], base) == Number(s, base) * base + (c - '0') as int
    ensures 'a' <= c <= 'f' ==> Number(s + [c], base) == Number(s, base) * base + 10 + (c - 'a') as int
    ensures 'A' <= c <= 'F' ==> Number(s + [c], base) == Number(s, base) * base + 10 + (c - 'A') as int
    ensures Number("", base) == 0
  {
    assert (s + [c])[..|s|] == s;
  }

  lemma NumberIs(s: string, base: nat, v: nat, c: char, t: string)
    requires Number(s, base) == v && t == s + [c]
    ensures Number(t, base) == v * base + DigitValue(c)
  {
    assert t[..|s|] == s;
  }

  /** Numbers as they are given on the command line: a decimal one, and as text. */
  lemma DecimalRead()
    ensures ParseNumber("1309") == Ok(1309) && Decimal(1309) == "1309"
  {
    assert Decimal(1) == "1" && Decimal(13) == "13" && Decimal(130) == "130" && Decimal(1309) == "1309";
    hide ParseNumber, Decimal;
    ParseDecimal(1309);
  }

  /** A hexadecimal one, with digits of either case. */
  lemma HexadecimalRead()
    ensures ParseNumber("0xafAF") == Ok(44975)
  {
    var arg := "0xafAF";
    assert arg[..2] == "0x" && arg[2..] == "afAF";
    AllHexadecimal();
    hide Number, AllDigits;
    EmptyNumber(16);
    NumberIs("", 16, 0, 'a', "a");
    NumberIs("a", 16, 10, 'f', "af");
    NumberIs("af", 16, 175, 'A', "afA");
    NumberIs("afA", 16, 2810, 'F', "afAF");
  }

  lemma AllHexadecimal()
    ensures AllDigits("afAF", 16)
  {
  }

  lemma EmptyNumber(base: nat)
    ensures Number("", base) == 0
  {
  }

  /** An octal one. */
  lemma OctalRead()
    ensures ParseNumber("017") == Ok(15)
  {
    var arg := "017";
    assert arg[0] == '0' && arg[1] == '1' && arg[2] == '7' && |arg| == 3;
    assert arg[..2] == "01" && arg[..1] == "0";
    hide Number;
    EmptyNumber(8);
    NumberIs("", 8, 0, '0', "0");
    NumberIs("0", 8, 0, '1', "01");
    NumberIs("01", 8, 1, '7', "017");
  }

  /** Text that is not a number. */
  lemma NumbersRefused()
    ensures ParseNumber("08").Raise? && ParseNumber("0x").Raise? && ParseNumber("0xg").Raise?
    ensures ParseNumber("").Raise? && ParseNumber("+1").Raise? && ParseNumber("-1").Raise?
    ensures ParseNumber("/soc").Raise? && ParseNumber("1a").Raise?
  {
    hide Number;
    assert !IsDigit("08"[1], 8) && !IsDigit("0xg"[2..][0], 16) && !IsDigit("1a"[1], 10);
  }
}

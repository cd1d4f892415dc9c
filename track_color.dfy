/**
 * uuid_to_color: a track id is scanned as hexadecimal, skipping '-' and '.',
 * at most eight characters are counted, and the top three bytes of the
 * resulting 32-bit code become red, green and blue. The scan keeps the
 * source's JavaScript semantics: `<<` and `>>` work on the ToInt32 reading of
 * the number, and `& 0xff` on its two's complement bits.
 */
module TrackColor {
  import opened Palette

  const Two32: int := 0x1_0000_0000

  /** JavaScript's ToInt32: the signed 32-bit reading of an integer. */
  function ToInt32(x: int): (r: int)
    ensures -0x8000_0000 <= r < 0x8000_0000
    ensures r % Two32 == x % Two32
  {
    var u := x % Two32;
    if u >= 0x8000_0000 then u - Two32 else u
  }

  /** `char.charCodeAt(0)` for one code point of a for-of loop: its first UTF-16 unit. */
  function CharCode(c: char): nat {
    if c as int < 0x1_0000 then c as int else 0xD800 + (c as int - 0x1_0000) / 0x400
  }

  /** The value a character code contributes, after the source's three comparisons. */
  function DigitValue(code: nat): nat {
    if code >= 97 then code - 97 + 10
    else if code >= 65 then code - 65 + 10
    else if code >= 48 then code - 48
    else 0
  }

  /** Characters the scan skips without counting. */
  predicate Skipped(c: char) {
    c == '-' || c == '.'
  }

  /** The values of the counted characters of s, in order. */
  function Digits(s: string): seq<nat>
    decreases |s|
  {
    if s == [] then []
    else Digits(s[..|s| - 1]) + (if Skipped(s[|s| - 1]) then [] else [DigitValue(CharCode(s[|s| - 1]))])
  }

  /** How many characters reach the code: the counted ones, up to eight. */
  function Counted(id: string): nat {
    var d := Digits(id);
    if |d| <= 8 then |d| else 8
  }

  /**
   * The 32-bit code of the first n digits: each digit shifts the code four
   * bits left and is added.
   */
  function Code(ds: seq<nat>, n: nat): (r: nat)
    requires n <= |ds|
    ensures r < Two32
  {
    if n == 0 then 0 else (Code(ds, n - 1) * 16 + ds[n - 1]) % Two32
  }

  /** The code of n digits depends on those n digits only. */
  lemma {:induction false} CodeOfSamePrefix(a: seq<nat>, b: seq<nat>, n: nat)
    requires n <= |a| && n <= |b| && a[..n] == b[..n]
    ensures Code(a, n) == Code(b, n)
  {
    if n > 0 {
      assert a[..n - 1] == a[..n][..n - 1] == b[..n][..n - 1] == b[..n - 1];
      assert a[n - 1] == a[..n][n - 1] == b[..n][n - 1] == b[n - 1];
      CodeOfSamePrefix(a, b, n - 1);
    }
  }

  /** The colour of a track id: bytes 3, 2 and 1 of its code as red, green and blue; always opaque. */
  function UuidColor(id: string): (c: ColorF)
    ensures 0.0 <= c.r <= 1.0 && 0.0 <= c.g <= 1.0 && 0.0 <= c.b <= 1.0 && c.a == 1.0
  {
    var code := Code(Digits(id), Counted(id));
    ColorF(Channel(code, 0x100_0000) as real / 255.0,
           Channel(code, 0x1_0000) as real / 255.0,
           Channel(code, 0x100) as real / 255.0,
           1.0)
  }

  /** `(code >> shift) & 0xff`, with k = 2^shift: one byte of the code. */
  function Channel(code: int, k: nat): (r: int)
    requires k > 0
    ensures 0 <= r < 256
  {
    (code / k) % 256
  }

  lemma CongruentAdd(a: int, b: int, v: int)
    requires a % Two32 == b % Two32
    ensures (a + v) % Two32 == (b + v) % Two32
  {
    var t := a / Two32 - b / Two32;
    assert a + v == b + v + Two32 * t;
  }

  /** One step of `hexcode = (hexcode << 4) + val` agrees with the code modulo 2^32. */
  lemma ShiftAddStep(h: int, v: nat)
    ensures (ToInt32(ToInt32(h) * 16) + v) % Two32 == ((h % Two32) * 16 + v) % Two32
  {
    var a := ToInt32(h);
    assert a * 16 == (h % Two32) * 16 || a * 16 == (h % Two32) * 16 - 16 * Two32;
    CongruentAdd(a * 16, (h % Two32) * 16, 0);
    CongruentAdd(ToInt32(a * 16), a * 16, v);
    CongruentAdd(a * 16, (h % Two32) * 16, v);
  }

  /** `((x >> shift) & 0xff)` reads the same byte as the unsigned code x mod 2^32. */
  lemma Int32Byte(x: int, k: nat)
    requires k == 0x100 || k == 0x1_0000 || k == 0x100_0000
    ensures Channel(ToInt32(x), k) == Channel(x % Two32, k)
  {
    var u := x % Two32;
    if ToInt32(x) != u {
      var m := Two32 / k;
      assert Two32 == k * m && m % 256 == 0;
      assert ToInt32(x) == u - k * m;
      assert (u - k * m) / k == u / k - m;
      assert (u / k - m) % 256 == (u / k) % 256;
    }
  }

  lemma {:induction false} DigitsAppend(a: string, b: string)
    ensures Digits(a + b) == Digits(a) + Digits(b)
    decreases |b|
  {
    if b == [] {
      assert a + b == a;
    } else {
      var b' := b[..|b| - 1];
      assert (a + b)[..|a + b| - 1] == a + b';
      DigitsAppend(a, b');
    }
  }

  /** The digits of a prefix are a prefix of the digits. */
  lemma DigitsOfPrefix(s: string, k: nat)
    requires k <= |s|
    ensures Digits(s[..k]) <= Digits(s)
  {
    assert s == s[..k] + s[k..];
    DigitsAppend(s[..k], s[k..]);
  }

  /** '-' and '.' are ignored wherever they occur. */
  lemma SeparatorsIgnored(a: string, sep: char, b: string)
    requires Skipped(sep)
    ensures UuidColor(a + [sep] + b) == UuidColor(a + b)
  {
    DigitsAppend(a + [sep], b);
    DigitsAppend(a, [sep]);
    assert Digits([sep]) == [] by {
      assert [sep][..0] == [];
    }
    DigitsAppend(a, b);
    assert Digits(a + [sep] + b) == Digits(a + b);
  }

  /** Nothing after the eighth counted character matters. */
  lemma StopsAfterEight(a: string, b: string)
    requires |Digits(a)| >= 8
    ensures UuidColor(a + b) == UuidColor(a)
  {
    DigitsAppend(a, b);
    assert (Digits(a) + Digits(b))[..8] == Digits(a)[..8];
    CodeOfSamePrefix(Digits(a + b), Digits(a), 8);
  }

  /** The value of the first n digits read in base 16, without wrap-around. */
  function HexValue(ds: seq<nat>, n: nat): nat
    requires n <= |ds|
  {
    if n == 0 then 0 else HexValue(ds, n - 1) * 16 + ds[n - 1]
  }

  /** 16^n */
  function Pow16(n: nat): nat {
    if n == 0 then 1 else 16 * Pow16(n - 1)
  }

  lemma {:induction false} Pow16AtMostTwo32(n: nat)
    requires n <= 8
    ensures Pow16(n) <= Two32
    decreases 8 - n
  {
    if n == 8 {
      assert Pow16(8) == Two32;
    } else {
      Pow16AtMostTwo32(n + 1);
    }
  }

  /** Up to eight hexadecimal digits never wrap: the code is their base-16 value. */
  lemma {:induction false} CodeOfHexDigits(ds: seq<nat>, n: nat)
    requires n <= 8 && n <= |ds| && forall k :: 0 <= k < n ==> ds[k] < 16
    ensures Code(ds, n) == HexValue(ds, n) < Pow16(n)
  {
    if n > 0 {
      CodeOfHexDigits(ds, n - 1);
      Pow16AtMostTwo32(n);
    }
  }

  /**
   * For an id whose first eight counted characters are hexadecimal digits,
   * red, green and blue are the first three hexadecimal byte pairs.
   */
  lemma HexIdGivesLeadingBytes(id: string)
    requires |Digits(id)| >= 8 && forall k :: 0 <= k < 8 ==> Digits(id)[k] < 16
    ensures var d := Digits(id);
      UuidColor(id) == ColorF((d[0] * 16 + d[1]) as real / 255.0, (d[2] * 16 + d[3]) as real / 255.0,
                              (d[4] * 16 + d[5]) as real / 255.0, 1.0)
  {
    var d := Digits(id);
    assert Counted(id) == 8;
    CodeOfHexDigits(d, 8);
    HexValueOfEight(d);
    ChannelsOfBytes(d[0] * 16 + d[1], d[2] * 16 + d[3], d[4] * 16 + d[5], d[6] * 16 + d[7]);
  }

  /** Eight hexadecimal digits as four bytes, most significant first. */
  lemma HexValueOfEight(ds: seq<nat>)
    requires |ds| >= 8
    ensures HexValue(ds, 8) == (ds[0] * 16 + ds[1]) * 0x100_0000 + (ds[2] * 16 + ds[3]) * 0x1_0000
                             + (ds[4] * 16 + ds[5]) * 0x100 + (ds[6] * 16 + ds[7])
  {
    assert HexValue(ds, 1) == ds[0];
    assert HexValue(ds, 2) == ds[0] * 16 + ds[1];
    assert HexValue(ds, 3) == HexValue(ds, 2) * 16 + ds[2];
    assert HexValue(ds, 4) == HexValue(ds, 2) * 0x100 + ds[2] * 16 + ds[3];
    assert HexValue(ds, 5) == HexValue(ds, 4) * 16 + ds[4];
    assert HexValue(ds, 6) == HexValue(ds, 4) * 0x100 + ds[4] * 16 + ds[5];
    assert HexValue(ds, 7) == HexValue(ds, 6) * 16 + ds[6];
    assert HexValue(ds, 8) == HexValue(ds, 6) * 0x100 + ds[6] * 16 + ds[7];
  }

  lemma ChannelsOfBytes(r: nat, g: nat, b: nat, rest: nat)
    requires r < 256 && g < 256 && b < 256 && rest < 256
    ensures var code := r * 0x100_0000 + g * 0x1_0000 + b * 0x100 + rest;
      Channel(code, 0x100_0000) == r && Channel(code, 0x1_0000) == g && Channel(code, 0x100) == b
  {
    var code := r * 0x100_0000 + g * 0x1_0000 + b * 0x100 + rest;
    assert code / 0x100_0000 == r;
    assert code / 0x1_0000 == r * 256 + g by {
      assert code == (r * 256 + g) * 0x1_0000 + (b * 0x100 + rest);
    }
    assert code / 0x100 == (r * 256 + g) * 256 + b by {
      assert code == ((r * 256 + g) * 256 + b) * 0x100 + rest;
    }
  }

  /** Scanning one more character appends its value unless it is a separator. */
  lemma DigitsStep(s: string, k: nat)
    requires k < |s|
    ensures Skipped(s[k]) <==> CharCode(s[k]) == 45 || CharCode(s[k]) == 46
    ensures Digits(s[..k + 1]) == Digits(s[..k]) + (if Skipped(s[k]) then [] else [DigitValue(CharCode(s[k]))])
  {
    assert s[..k + 1][..k] == s[..k];
  }

  lemma CodeStep(ds: seq<nat>, v: nat)
    ensures Code(ds + [v], |ds| + 1) == (Code(ds, |ds|) * 16 + v) % Two32
  {
    assert (ds + [v])[..|ds|] == ds[..|ds|];
    CodeOfSamePrefix(ds + [v], ds, |ds|);
  }

  /** A separator leaves the scanned digits as they were. */
  lemma SkipStep(id: string, k: nat)
    requires k < |id| && (CharCode(id[k]) == 45 || CharCode(id[k]) == 46)
    ensures Digits(id[..k + 1]) == Digits(id[..k])
  {
    DigitsStep(id, k);
  }

  /** Any other character is counted: the running code takes in its value. */
  lemma CountStep(id: string, k: nat, before: int, after: int)
    requires k < |id| && CharCode(id[k]) != 45 && CharCode(id[k]) != 46
    requires before % Two32 == Code(Digits(id[..k]), |Digits(id[..k])|)
    requires after % Two32 == ((before % Two32) * 16 + DigitValue(CharCode(id[k]))) % Two32
    ensures after % Two32 == Code(Digits(id[..k + 1]), |Digits(id[..k + 1])|)
    ensures |Digits(id[..k + 1])| == |Digits(id[..k])| + 1
  {
    DigitsStep(id, k);
    CodeStep(Digits(id[..k]), DigitValue(CharCode(id[k])));
  }

  /** Once a prefix holds eight counted characters, they are the counted ones. */
  lemma EighthDigit(id: string, k: nat)
    requires k <= |id| && |Digits(id[..k])| == 8
    ensures Counted(id) == 8 && Code(Digits(id), Counted(id)) == Code(Digits(id[..k]), 8)
  {
    DigitsOfPrefix(id, k);
    CodeOfSamePrefix(Digits(id), Digits(id[..k]), 8);
  }

  /** The source's chain of comparisons turning a character code into a value. */
  method CodeValue(c: nat) returns (val: nat)
    ensures val == DigitValue(c)
    ensures 48 <= c < 58 ==> val == c - 48
    ensures 65 <= c < 71 ==> val == c - 55
    ensures 97 <= c < 103 ==> val == c - 87
  {
    val := 0;
    if c >= 97 {
      val := c - 97 + 10;
    } else if c >= 65 {
      val := c - 65 + 10;
    } else if c >= 48 {
      val := c - 48;
    }
  }

  /** `(hexcode << 4) + val`: shifting works on the 32-bit reading, the sum does not wrap. */
  method ShiftIn(hexcode: int, val: nat) returns (r: int)
    ensures r % Two32 == ((hexcode % Two32) * 16 + val) % Two32
  {
    r := ToInt32(ToInt32(hexcode) * 16) + val;
    ShiftAddStep(hexcode, val);
  }

  /** Bytes 3, 2 and 1 of the code, each shifted out with `>>` and masked with `& 0xff`. */
  method ColorOf(hexcode: int) returns (color: ColorF)
    ensures color == ColorF(Channel(hexcode % Two32, 0x100_0000) as real / 255.0,
                            Channel(hexcode % Two32, 0x1_0000) as real / 255.0,
                            Channel(hexcode % Two32, 0x100) as real / 255.0, 1.0)
  {
    Int32Byte(hexcode, 0x100_0000);
    Int32Byte(hexcode, 0x1_0000);
    Int32Byte(hexcode, 0x100);
    color := ColorF(Channel(ToInt32(hexcode), 0x100_0000) as real / 255.0,
                    Channel(ToInt32(hexcode), 0x1_0000) as real / 255.0,
                    Channel(ToInt32(hexcode), 0x100) as real / 255.0,
                    1.0);
  }

  /** The source's loop, with `continue` for separators and `break` after the eighth counted character. */
  method UuidToColor(id: string) returns (color: ColorF)
    ensures color == UuidColor(id)
  {
    var hexcode := 0;
    var bytes := 0;
    var k := 0;
    while k < |id|
      invariant k <= |id|
      invariant bytes == |Digits(id[..k])| < 8
      invariant hexcode % Two32 == Code(Digits(id[..k]), |Digits(id[..k])|)
    {
      var c := CharCode(id[k]);
      if c == 45 || c == 46 {
        SkipStep(id, k);
        k := k + 1;
        continue;
      }
      var val := CodeValue(c);
      ghost var before := hexcode;
      hexcode := ShiftIn(hexcode, val);
      CountStep(id, k, before, hexcode);
      bytes := bytes + 1;
      if bytes >= 8 {
        EighthDigit(id, k + 1);
        break;
      }
      k := k + 1;
    }
    if k == |id| {
      assert id[..k] == id;
    }
    color := ColorOf(hexcode);
  }
}

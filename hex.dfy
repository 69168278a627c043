/**
 * The hexadecimal detour of the H5075 branch: `hex_string` formats each byte
 * as "{:02x} ", the caller strips the spaces with `.replace(" ", "")` and
 * reads the digits back with `int(..., 16)`. The lemmas show that the whole
 * pipeline is the big-endian value of the bytes.
 */
module HexFormat {
  import opened Wrappers

  type byte = x: int | 0 <= x < 256

  function Pow(b: nat, e: nat): nat
  {
    if e == 0 then 1 else b * Pow(b, e - 1)
  }

  predicate IsHexDigit(c: char)
  {
    '0' <= c <= '9' || 'a' <= c <= 'f' || 'A' <= c <= 'F'
  }

  /** The value of one digit as `int(..., 16)` reads it (either case). */
  function DigitValue(c: char): (v: nat)
    requires IsHexDigit(c)
    ensures v < 16
  {
    if '0' <= c <= '9' then c as int - '0' as int
    else if 'a' <= c <= 'f' then c as int - 'a' as int + 10
    else c as int - 'A' as int + 10
  }

  /** The lower-case digit that the `x` format type writes for 0..15. */
  function HexDigit(d: int): (c: char)
    requires 0 <= d < 16
    ensures '0' <= c <= '9' || 'a' <= c <= 'f'
    ensures IsHexDigit(c) && DigitValue(c) == d
  {
    if d < 10 then ('0' as int + d) as char else ('a' as int + d - 10) as char
  }

  /** "{:02x} ".format(x): two lower-case digits, zero padded, then a space. */
  function Format02x(x: byte): (s: string)
    ensures |s| == 3 && s[2] == ' '
    ensures s[0] != ' ' && s[1] != ' '
    ensures forall k :: 0 <= k < 2 ==> '0' <= s[k] <= '9' || 'a' <= s[k] <= 'f'
    ensures IsHexDigit(s[0]) && IsHexDigit(s[1])
    ensures DigitValue(s[0]) * 16 + DigitValue(s[1]) == x
  {
    [HexDigit(x / 16), HexDigit(x % 16), ' ']
  }

  /** hex_string(data): the formatted bytes joined with no separator. */
  function HexString(data: seq<byte>): (s: string)
    ensures |s| == 3 * |data|
  {
    if data == [] then "" else HexString(data[..|data| - 1]) + Format02x(data[|data| - 1])
  }

  /** Byte i of the input occupies characters 3*i .. 3*i+2 of `hex_string`. */
  lemma {:induction false} HexStringAt(data: seq<byte>, i: nat)
    requires i < |data|
    ensures HexString(data)[3 * i .. 3 * i + 3] == Format02x(data[i])
  {
    var n := |data|;
    var init := data[..n - 1];
    assert HexString(data) == HexString(init) + Format02x(data[n - 1]);
    if i < n - 1 {
      HexStringAt(init, i);
      assert HexString(data)[3 * i .. 3 * i + 3] == HexString(init)[3 * i .. 3 * i + 3];
    } else {
      assert HexString(data)[3 * i .. 3 * i + 3] == Format02x(data[n - 1]);
    }
  }

  /** s.replace(" ", ""): every space deleted, every other character kept in order. */
  function RemoveSpaces(s: string): (r: string)
    ensures |r| <= |s|
    ensures forall c :: c in r <==> c in s && c != ' '
    ensures |s| == 1 ==> r == (if s[0] == ' ' then "" else s)
    ensures ' ' !in s ==> r == s
  {
    if s == [] then ""
    else
      assert s == s[..|s| - 1] + [s[|s| - 1]];
      RemoveSpaces(s[..|s| - 1]) + (if s[|s| - 1] == ' ' then "" else [s[|s| - 1]])
  }

  lemma {:induction false} RemoveSpacesAppend(a: string, b: string)
    ensures RemoveSpaces(a + b) == RemoveSpaces(a) + RemoveSpaces(b)
    decreases |b|
  {
    if b != [] {
      var n := |b|;
      assert (a + b)[..|a + b| - 1] == a + b[..n - 1];
      RemoveSpacesAppend(a, b[..n - 1]);
    } else {
      assert a + b == a;
    }
  }

  predicate AllHexDigits(s: string)
  {
    forall i :: 0 <= i < |s| ==> IsHexDigit(s[i])
  }

  /** The number a string of hexadecimal digits denotes, most significant digit first. */
  function HexValue(s: string): (v: nat)
    requires AllHexDigits(s)
    ensures v < Pow(16, |s|)
  {
    if s == [] then 0 else HexValue(s[..|s| - 1]) * 16 + DigitValue(s[|s| - 1])
  }

  /**
   * int(s, 16) on a string with no sign, prefix, underscore, whitespace or
   * non-ASCII decimal digit:
   * the empty string and any non-digit raise ValueError (here None).
   */
  function ParseHex(s: string): (r: Option<nat>)
    ensures r.None? <==> s == [] || exists i :: 0 <= i < |s| && !IsHexDigit(s[i])
    ensures r.Some? ==> r.value < Pow(16, |s|)
  {
    if s != [] && AllHexDigits(s) then Some(HexValue(s)) else None
  }

  /** The unsigned big-endian value of a byte string (the independent reference). */
  function BigEndian(b: seq<byte>): (v: nat)
    ensures v < Pow(256, |b|)
  {
    if b == [] then 0 else BigEndian(b[..|b| - 1]) * 256 + b[|b| - 1]
  }

  lemma BigEndianThree(b: seq<byte>)
    requires |b| == 3
    ensures BigEndian(b) == b[0] as int * 65536 + b[1] as int * 256 + b[2] as int
  {
    var b2 := b[..2];
    assert b2[..1] == b[..1] && b2[1] == b[1];
    assert BigEndian(b[..1]) == b[0];
    assert BigEndian(b2) == b[0] as int * 256 + b[1] as int;
  }

  /** Appending one byte to `hex_string` appends its two digits once the spaces are gone. */
  lemma StrippedSnoc(init: seq<byte>, x: byte)
    ensures RemoveSpaces(HexString(init + [x]))
            == RemoveSpaces(HexString(init)) + [HexDigit(x / 16), HexDigit(x % 16)]
  {
    var f := Format02x(x);
    assert (init + [x])[..|init|] == init;
    RemoveSpacesAppend(HexString(init), f);
    assert f == [f[0], f[1]] + [' '];
    RemoveSpacesAppend([f[0], f[1]], [' ']);
    RemoveSpacesAppend([f[0]], [f[1]]);
    assert [f[0]] + [f[1]] == [f[0], f[1]];
  }

  /** Two more digits multiply the value by 256 and add the byte they spell. */
  lemma HexValueSnoc2(p: string, x: byte)
    requires AllHexDigits(p)
    ensures AllHexDigits(p + [HexDigit(x / 16), HexDigit(x % 16)])
    ensures HexValue(p + [HexDigit(x / 16), HexDigit(x % 16)]) == HexValue(p) * 256 + x
  {
    var hi, lo := HexDigit(x / 16), HexDigit(x % 16);
    var s := p + [hi, lo];
    assert s[..|s| - 1] == p + [hi];
    assert (p + [hi])[..|p|] == p;
    assert HexValue(s) == HexValue(p + [hi]) * 16 + DigitValue(lo);
    assert HexValue(p + [hi]) == HexValue(p) * 16 + DigitValue(hi);
  }

  /** The digits left once the spaces are stripped from `hex_string`. */
  lemma {:induction false} StrippedHexString(data: seq<byte>)
    ensures AllHexDigits(RemoveSpaces(HexString(data)))
    ensures |RemoveSpaces(HexString(data))| == 2 * |data|
    ensures HexValue(RemoveSpaces(HexString(data))) == BigEndian(data)
  {
    if data != [] {
      var n := |data|;
      var init, x := data[..n - 1], data[n - 1];
      assert data == init + [x];
      StrippedHexString(init);
      StrippedSnoc(init, x);
      HexValueSnoc2(RemoveSpaces(HexString(init)), x);
    }
  }

  /**
   * int(hex_string(b).replace(" ", ""), 16) is the big-endian value of b, and
   * raises ValueError exactly when b is empty.
   */
  lemma HexPipelineIsBigEndian(data: seq<byte>)
    ensures ParseHex(RemoveSpaces(HexString(data)))
            == if data == [] then None else Some(BigEndian(data))
  {
    StrippedHexString(data);
  }
}

/** Identifiers of users and todos: 128-bit UUIDs, and the hyphenated
    lower-case text form that `Uuid::to_string` produces. */
module Uuids {
  import opened Base

  /** A UUID as its sixteen bytes, most significant first. */
  type Uuid = s: seq<byte> | |s| == 16 witness seq(16, _ => 0)

  /** The lower-case hexadecimal digit for `d`. */
  function HexDigit(d: int): (c: char)
    requires 0 <= d < 16
    ensures c != '-'
  {
    if d < 10 then ('0' as int + d) as char else ('a' as int + d - 10) as char
  }

  /** The value of a hexadecimal digit of either case, if `c` is one. */
  function HexDigitValue(c: char): (r: Option<int>)
    ensures r.Some? ==> 0 <= r.value < 16
  {
    if '0' <= c <= '9' then Some(c as int - '0' as int)
    else if 'a' <= c <= 'f' then Some(c as int - 'a' as int + 10)
    else if 'A' <= c <= 'F' then Some(c as int - 'A' as int + 10)
    else None
  }

  /** Two hexadecimal digits per byte, high nibble first. */
  function HexBytes(bs: seq<byte>): (s: string)
    ensures |s| == 2 * |bs|
    ensures '-' !in s
  {
    if bs == [] then ""
    else [HexDigit(bs[0] as int / 16), HexDigit(bs[0] as int % 16)] + HexBytes(bs[1..])
  }

  /** Reads back an even number of hexadecimal digits as bytes. */
  function UnhexBytes(s: string): (r: Option<seq<byte>>)
    ensures r.Some? ==> 2 * |r.value| == |s|
  {
    if s == [] then Some([])
    else if |s| == 1 then None
    else match (HexDigitValue(s[0]), HexDigitValue(s[1]), UnhexBytes(s[2..]))
      case (Some(hi), Some(lo), Some(rest)) => Some([(16 * hi + lo) as byte] + rest)
      case _ => None
  }

  lemma {:induction false} UnhexHexBytes(bs: seq<byte>)
    ensures UnhexBytes(HexBytes(bs)) == Some(bs)
  {
    if bs != [] {
      var s := HexBytes(bs);
      var b := bs[0] as int;
      assert s[2..] == HexBytes(bs[1..]);
      UnhexHexBytes(bs[1..]);
      assert HexDigitValue(s[0]) == Some(b / 16);
      assert HexDigitValue(s[1]) == Some(b % 16);
      assert [bs[0]] + bs[1..] == bs;
    }
  }

  lemma {:induction false} HexBytesAppend(a: seq<byte>, b: seq<byte>)
    ensures HexBytes(a + b) == HexBytes(a) + HexBytes(b)
  {
    if a == [] {
      assert a + b == b;
    } else {
      assert (a + b)[0] == a[0];
      assert (a + b)[1..] == a[1..] + b;
      HexBytesAppend(a[1..], b);
    }
  }

  /** `Uuid::to_string`: 8-4-4-4-12 lower-case hexadecimal digits. */
  function ToString(u: Uuid): (s: string)
    ensures |s| == 36
    ensures s[8] == '-' && s[13] == '-' && s[18] == '-' && s[23] == '-'
  {
    HexBytes(u[..4]) + "-" + HexBytes(u[4..6]) + "-" + HexBytes(u[6..8]) + "-"
      + HexBytes(u[8..10]) + "-" + HexBytes(u[10..])
  }

  /** A reference reader for the hyphenated form (digits of either case):
      the inverse of `ToString`. */
  function ParseHyphenated(s: string): (r: Option<Uuid>)
  {
    if |s| != 36 || s[8] != '-' || s[13] != '-' || s[18] != '-' || s[23] != '-' then None
    else match UnhexBytes(s[..8] + s[9..13] + s[14..18] + s[19..23] + s[24..])
      case Some(bs) => var id: Uuid := bs; Some(id)
      case None => None
  }

  /** Reading back the text form of a UUID gives that UUID. */
  lemma ParseToString(u: Uuid)
    ensures ParseHyphenated(ToString(u)) == Some(u)
  {
    var a, b, c, d, e := u[..4], u[4..6], u[6..8], u[8..10], u[10..];
    var s := ToString(u);
    assert s == HexBytes(a) + "-" + HexBytes(b) + "-" + HexBytes(c) + "-" + HexBytes(d) + "-" + HexBytes(e);
    assert s[..8] == HexBytes(a);
    assert s[9..13] == HexBytes(b);
    assert s[14..18] == HexBytes(c);
    assert s[19..23] == HexBytes(d);
    assert s[24..] == HexBytes(e);
    HexBytesAppend(a, b);
    HexBytesAppend(a + b, c);
    HexBytesAppend(a + b + c, d);
    HexBytesAppend(a + b + c + d, e);
    assert a + b + c + d + e == u;
    UnhexHexBytes(u);
  }

  /** Distinct UUIDs have distinct text forms. */
  lemma ToStringInjective(u: Uuid, v: Uuid)
    ensures ToString(u) == ToString(v) ==> u == v
  {
    ParseToString(u);
    ParseToString(v);
  }
}

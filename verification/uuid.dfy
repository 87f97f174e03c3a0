/**
 * The UUID value of github.com/google/uuid as the student store uses it:
 * sixteen bytes, printed by `String()` in the canonical lower-case
 * 8-4-4-4-12 hexadecimal form and read back by `Parse`.
 */
module Uuid {
  import opened Results

  type Byte = x: int | 0 <= x < 256

  /** Sixteen bytes, as laid out in section 4.1 of RFC 4122. */
  type UUID = b: seq<Byte> | |b| == 16 witness [0, 0, 0, 0, 0, 0, 0, 0, 0, 0, 0, 0, 0, 0, 0, 0]

  /** The all-zero UUID, which is also Go's zero value of the type. */
  const Nil: UUID := [0, 0, 0, 0, 0, 0, 0, 0, 0, 0, 0, 0, 0, 0, 0, 0]

  /** Lower-case hexadecimal digit of a nibble. */
  function HexChar(n: int): (c: char)
    requires 0 <= n < 16
  {
    if n < 10 then ('0' as int + n) as char else ('a' as int + n - 10) as char
  }

  /** Value of a hexadecimal digit of either case; None for any other character. */
  function HexValue(c: char): (r: Option<int>)
    ensures r.Some? ==> 0 <= r.value < 16
  {
    if '0' <= c <= '9' then Some(c as int - '0' as int)
    else if 'a' <= c <= 'f' then Some(c as int - 'a' as int + 10)
    else if 'A' <= c <= 'F' then Some(c as int - 'A' as int + 10)
    else None
  }

  lemma HexValueOfHexChar(n: int)
    requires 0 <= n < 16
    ensures HexValue(HexChar(n)) == Some(n)
  {
  }

  /** The byte two hexadecimal digits spell, high nibble first (`xtob`). */
  function PairValue(hi: char, lo: char): (r: Option<Byte>)
    ensures r.Some? <==> HexValue(hi).Some? && HexValue(lo).Some?
    ensures r.Some? ==> r.value == 16 * HexValue(hi).value + HexValue(lo).value
  {
    match (HexValue(hi), HexValue(lo))
    case (Some(h), Some(l)) => Some(16 * h + l)
    case _ => None
  }

  /** Two lower-case digits per byte, high nibble first. */
  function Hex(bs: seq<Byte>): (s: string)
    ensures |s| == 2 * |bs|
    ensures forall j :: 0 <= j < |bs| ==>
              s[2 * j] == HexChar(bs[j] / 16) && s[2 * j + 1] == HexChar(bs[j] % 16)
    ensures forall k :: 0 <= k < |s| ==> ToLower(s[k]) == s[k]
  {
    if bs == [] then [] else [HexChar(bs[0] / 16), HexChar(bs[0] % 16)] + Hex(bs[1..])
  }

  /** `UUID.String()`: xxxxxxxx-xxxx-xxxx-xxxx-xxxxxxxxxxxx in lower case. */
  function ToString(u: UUID): (s: string)
    ensures |s| == 36
    ensures s[8] == '-' && s[13] == '-' && s[18] == '-' && s[23] == '-'
    ensures Lower(s) == s
  {
    var s := Hex(u[..4]) + "-" + Hex(u[4..6]) + "-" + Hex(u[6..8]) + "-" + Hex(u[8..10]) + "-" + Hex(u[10..]);
    assert forall k :: 0 <= k < |s| ==> Lower(s)[k] == s[k];
    s
  }

  /** Where the high digit of each of the sixteen bytes sits in the 36-character form. */
  const Offsets: seq<int> := [0, 2, 4, 6, 9, 11, 14, 16, 19, 21, 24, 26, 28, 30, 32, 34]

  /** Decodes the digit pair at each offset in turn, failing at the first bad digit. */
  function DecodePairs(s: string, offsets: seq<int>): (r: Option<seq<Byte>>)
    requires forall i :: 0 <= i < |offsets| ==> 0 <= offsets[i] && offsets[i] + 1 < |s|
    ensures r.Some? <==>
              forall i :: 0 <= i < |offsets| ==> PairValue(s[offsets[i]], s[offsets[i] + 1]).Some?
    ensures r.Some? ==> |r.value| == |offsets|
    ensures r.Some? ==>
              forall i :: 0 <= i < |offsets| ==> PairValue(s[offsets[i]], s[offsets[i] + 1]) == Some(r.value[i])
  {
    if offsets == [] then Some([])
    else
      match PairValue(s[offsets[0]], s[offsets[0] + 1])
      case None => None
      case Some(b) =>
        match DecodePairs(s, offsets[1..])
        case None => None
        case Some(rest) => Some([b] + rest)
  }

  /**
   * `uuid.Parse` on the 36-character form: dashes at 8, 13, 18 and 23 and a
   * hexadecimal digit pair of either case for every byte.
   */
  function Parse(s: string): (r: Option<UUID>)
    ensures r.Some? ==> |s| == 36 && s[8] == '-' && s[13] == '-' && s[18] == '-' && s[23] == '-'
    ensures r.Some? ==> forall i :: 0 <= i < 16 ==>
              PairValue(s[Offsets[i]], s[Offsets[i] + 1]) == Some(r.value[i])
    ensures r.None? && |s| == 36 && s[8] == '-' && s[13] == '-' && s[18] == '-' && s[23] == '-' ==>
              exists i :: 0 <= i < 16 && PairValue(s[Offsets[i]], s[Offsets[i] + 1]).None?
  {
    if |s| != 36 then None
    else if s[8] != '-' || s[13] != '-' || s[18] != '-' || s[23] != '-' then None
    else
      match DecodePairs(s, Offsets)
      case None => None
      case Some(bs) => Some(bs)
  }

  /** The digits of byte `i` of `u` sit at `Offsets[i]` and the position after it. */
  lemma DigitsOfByte(u: UUID, i: int)
    requires 0 <= i < 16
    ensures ToString(u)[Offsets[i]] == HexChar(u[i] / 16)
    ensures ToString(u)[Offsets[i] + 1] == HexChar(u[i] % 16)
  {
    var s := ToString(u);
    var a, b, c, d, e := Hex(u[..4]), Hex(u[4..6]), Hex(u[6..8]), Hex(u[8..10]), Hex(u[10..]);
    assert s == a + "-" + b + "-" + c + "-" + d + "-" + e;
    if i < 4 {
      assert u[..4][i] == u[i];
    } else if i < 6 {
      assert u[4..6][i - 4] == u[i];
      assert s[Offsets[i]] == b[2 * (i - 4)] && s[Offsets[i] + 1] == b[2 * (i - 4) + 1];
    } else if i < 8 {
      assert u[6..8][i - 6] == u[i];
      assert s[Offsets[i]] == c[2 * (i - 6)] && s[Offsets[i] + 1] == c[2 * (i - 6) + 1];
    } else if i < 10 {
      assert u[8..10][i - 8] == u[i];
      assert s[Offsets[i]] == d[2 * (i - 8)] && s[Offsets[i] + 1] == d[2 * (i - 8) + 1];
    } else {
      assert u[10..][i - 10] == u[i];
      assert s[Offsets[i]] == e[2 * (i - 10)] && s[Offsets[i] + 1] == e[2 * (i - 10) + 1];
    }
  }

  /** Parsing what `String()` printed gives back the same UUID. */
  lemma ParseToString(u: UUID)
    ensures Parse(ToString(u)) == Some(u)
  {
    var s := ToString(u);
    forall i | 0 <= i < 16
      ensures PairValue(s[Offsets[i]], s[Offsets[i] + 1]) == Some(u[i])
    {
      DigitsOfByte(u, i);
      HexValueOfHexChar(u[i] / 16);
      HexValueOfHexChar(u[i] % 16);
    }
    var d := DecodePairs(s, Offsets);
    assert d.Some?;
    assert d.value == u;
  }

  /** Distinct UUIDs print differently. */
  lemma ToStringInjective(u: UUID, v: UUID)
    ensures ToString(u) == ToString(v) <==> u == v
  {
    if ToString(u) == ToString(v) {
      ParseToString(u);
      ParseToString(v);
    }
  }

  /** The lower-case form of a character; only 'A' to 'F' can occur in an accepted UUID text. */
  function ToLower(c: char): char
  {
    if 'A' <= c <= 'Z' then (c as int - 'A' as int + 'a' as int) as char else c
  }

  /** Every character of `s` in lower case. */
  function Lower(s: string): (r: string)
    ensures |r| == |s|
  {
    seq(|s|, k requires 0 <= k < |s| => ToLower(s[k]))
  }

  /** Printing a digit's value gives back the digit in lower case. */
  lemma HexCharOfHexValue(c: char)
    requires HexValue(c).Some?
    ensures HexChar(HexValue(c).value) == ToLower(c)
  {
  }

  /** The byte whose digit pair covers position `k` of the 36-character form. */
  function ByteAt(k: int): (i: int)
    requires 0 <= k < 36 && k != 8 && k != 13 && k != 18 && k != 23
    ensures 0 <= i < 16 && (k == Offsets[i] || k == Offsets[i] + 1)
  {
    if k < 8 then k / 2
    else if k < 13 then 4 + (k - 9) / 2
    else if k < 18 then 6 + (k - 14) / 2
    else if k < 23 then 8 + (k - 19) / 2
    else 10 + (k - 24) / 2
  }

  /** At a digit position, the printed text of a parsed UUID has the parsed digit in lower case. */
  lemma DigitPrintsLower(s: string, k: int)
    requires Parse(s).Some?
    requires 0 <= k < 36 && k != 8 && k != 13 && k != 18 && k != 23
    ensures ToString(Parse(s).value)[k] == ToLower(s[k])
  {
    var u := Parse(s).value;
    var i := ByteAt(k);
    var hi, lo := s[Offsets[i]], s[Offsets[i] + 1];
    assert PairValue(hi, lo) == Some(u[i]);
    var h, l := HexValue(hi).value, HexValue(lo).value;
    assert u[i] / 16 == h && u[i] % 16 == l;
    DigitsOfByte(u, i);
    HexCharOfHexValue(hi);
    HexCharOfHexValue(lo);
  }

  /**
   * `Parse` reads digits of either case, `String()` prints lower case: a
   * text that parses prints back as itself in lower case.
   */
  lemma ToStringOfParse(s: string)
    requires Parse(s).Some?
    ensures ToString(Parse(s).value) == Lower(s)
  {
    var t := ToString(Parse(s).value);
    forall k | 0 <= k < 36 ensures t[k] == Lower(s)[k] {
      if k != 8 && k != 13 && k != 18 && k != 23 {
        DigitPrintsLower(s, k);
      }
    }
  }
}

/** URL-safe base64 (section 5 of RFC 4648) as Python writes it, and as its lenient decoder reads it. */
module Base64 {
  import opened Wrappers

  type Byte = b: nat | b < 256
  type Sextet = v: nat | v < 64

  function CharOf(v: Sextet): char {
    if v < 26 then 'A' + v as char
    else if v < 52 then 'a' + (v - 26) as char
    else if v < 62 then '0' + (v - 52) as char
    else if v == 62 then '-' else '_'
  }

  /** The URL-safe characters are translated to the standard ones first, so both are read. */
  function ValueOf(c: char): Option<Sextet> {
    if 'A' <= c <= 'Z' then Some(c as nat - 'A' as nat)
    else if 'a' <= c <= 'z' then Some(c as nat - 'a' as nat + 26)
    else if '0' <= c <= '9' then Some(c as nat - '0' as nat + 52)
    else if c == '-' || c == '+' then Some(62)
    else if c == '_' || c == '/' then Some(63)
    else None
  }

  lemma CharReadBack(v: Sextet)
    ensures ValueOf(CharOf(v)) == Some(v) && CharOf(v) != '=' && CharOf(v) != '.' && CharOf(v) < 128 as char
  {
  }

  /** One, two or three bytes in as many sextets as it takes. */
  function One(a: Byte): string {
    [CharOf(a / 4), CharOf(a % 4 * 16)]
  }

  function Two(a: Byte, b: Byte): string {
    [CharOf(a / 4), CharOf(a % 4 * 16 + b / 16), CharOf(b % 16 * 4)]
  }

  function Three(a: Byte, b: Byte, c: Byte): string {
    [CharOf(a / 4), CharOf(a % 4 * 16 + b / 16), CharOf(b % 16 * 4 + c / 64), CharOf(c % 64)]
  }

  function Encode(data: seq<Byte>): string {
    if data == [] then ""
    else if |data| == 1 then One(data[0]) + "=="
    else if |data| == 2 then Two(data[0], data[1]) + "="
    else Three(data[0], data[1], data[2]) + Encode(data[3..])
  }

  /**
    The decoder between two characters: `quad` characters of the group in progress have been read, `left` holds their
    unused bits, `pads` counts the padding since. Padding that completes a group ends the input; other characters
    outside the alphabet are skipped.
    */
  function DecodeFrom(s: string, quad: nat, left: nat, pads: nat): Option<seq<Byte>>
    requires quad < 4
    decreases |s|
  {
    if s == "" then (if quad == 0 then Some([]) else None)
    else if s[0] == '=' then
      if quad >= 2 && quad + pads + 1 >= 4 then Some([])
      else DecodeFrom(s[1..], quad, left, if quad >= 2 then pads + 1 else pads)
    else
      match ValueOf(s[0])
      case None => DecodeFrom(s[1..], quad, left, pads)
      case Some(v) =>
        if quad == 0 then DecodeFrom(s[1..], 1, v, 0)
        else if quad == 1 then Emit(left * 4 + v / 16, DecodeFrom(s[1..], 2, v % 16, 0))
        else if quad == 2 then Emit(left * 16 + v / 4, DecodeFrom(s[1..], 3, v % 4, 0))
        else Emit(left * 64 + v, DecodeFrom(s[1..], 0, 0, 0))
  }

  /** A byte of output, in eight bits. */
  function Emit(bits: nat, rest: Option<seq<Byte>>): Option<seq<Byte>> {
    match rest
    case None => None
    case Some(bytes) => Some([bits % 256] + bytes)
  }

  predicate IsAscii(s: string) {
    forall k :: 0 <= k < |s| ==> s[k] < 128 as char
  }

  /** Text that is not ASCII raises; so does a group left incomplete. */
  function Decode(s: string): Option<seq<Byte>> {
    if IsAscii(s) then DecodeFrom(s, 0, 0, 0) else None
  }

  lemma {:induction false} DecodeShrinks(s: string, quad: nat, left: nat, pads: nat)
    requires quad < 4
    ensures DecodeFrom(s, quad, left, pads).Some? ==> |DecodeFrom(s, quad, left, pads).value| <= |s|
    decreases |s|
  {
    if s != "" {
      var rest := s[1..];
      DecodeShrinks(rest, quad, left, pads);
      DecodeShrinks(rest, quad, left, pads + 1);
      if ValueOf(s[0]).Some? {
        var v := ValueOf(s[0]).value;
        DecodeShrinks(rest, 1, v, 0);
        DecodeShrinks(rest, 2, v % 16, 0);
        DecodeShrinks(rest, 3, v % 4, 0);
        DecodeShrinks(rest, 0, 0, 0);
      }
    }
  }

  /** One alphabet character read. */
  lemma ReadOne(v: Sextet, rest: string, quad: nat, left: nat)
    requires quad < 4
    ensures DecodeFrom([CharOf(v)] + rest, quad, left, 0) ==
            if quad == 0 then DecodeFrom(rest, 1, v, 0)
            else if quad == 1 then Emit(left * 4 + v / 16, DecodeFrom(rest, 2, v % 16, 0))
            else if quad == 2 then Emit(left * 16 + v / 4, DecodeFrom(rest, 3, v % 4, 0))
            else Emit(left * 64 + v, DecodeFrom(rest, 0, 0, 0))
  {
    CharReadBack(v);
    assert ([CharOf(v)] + rest)[1..] == rest;
  }

  /** Three bytes survive the trip through four sextets. */
  lemma Regrouped(a: Byte, b: Byte, c: Byte)
    ensures a / 4 * 4 + (a % 4 * 16 + b / 16) / 16 == a && (a % 4 * 16 + b / 16) % 16 == b / 16
    ensures b / 16 * 16 + (b % 16 * 4 + c / 64) / 4 == b && (b % 16 * 4 + c / 64) % 4 == c / 64
    ensures c / 64 * 64 + c % 64 == c
  {
  }

  lemma ReadThree(a: Byte, b: Byte, c: Byte, rest: string)
    ensures DecodeFrom(Three(a, b, c) + rest, 0, 0, 0) == Emit(a, Emit(b, Emit(c, DecodeFrom(rest, 0, 0, 0))))
  {
    var v1, v2 := a % 4 * 16 + b / 16, b % 16 * 4 + c / 64;
    var r3 := [CharOf(c % 64)] + rest;
    var r2 := [CharOf(v2)] + r3;
    var r1 := [CharOf(v1)] + r2;
    Regrouped(a, b, c);
    ReadOne(a / 4, r1, 0, 0);
    ReadOne(v1, r2, 1, a / 4);
    ReadOne(v2, r3, 2, b / 16);
    ReadOne(c % 64, rest, 3, c / 64);
    assert Three(a, b, c) + rest == [CharOf(a / 4)] + r1;
  }

  lemma ReadTwo(a: Byte, b: Byte)
    ensures DecodeFrom(Two(a, b) + "=", 0, 0, 0) == Emit(a, Emit(b, Some([])))
  {
    var v1, v2 := a % 4 * 16 + b / 16, b % 16 * 4;
    var r2 := [CharOf(v2)] + "=";
    var r1 := [CharOf(v1)] + r2;
    Regrouped(a, b, 0);
    ReadOne(a / 4, r1, 0, 0);
    ReadOne(v1, r2, 1, a / 4);
    ReadOne(v2, "=", 2, b / 16);
    LastPad(3, v2 % 4);
    assert Two(a, b) + "=" == [CharOf(a / 4)] + r1;
  }

  lemma ReadSingle(a: Byte)
    ensures DecodeFrom(One(a) + "==", 0, 0, 0) == Emit(a, Some([]))
  {
    var v1 := a % 4 * 16;
    var r1 := [CharOf(v1)] + "==";
    Regrouped(a, 0, 0);
    ReadOne(a / 4, r1, 0, 0);
    ReadOne(v1, "==", 1, a / 4);
    LastPad(2, v1 % 16);
    assert One(a) + "==" == [CharOf(a / 4)] + r1;
  }

  /** Padding completes a group of two or three characters. */
  lemma LastPad(quad: nat, left: nat)
    ensures DecodeFrom("=", 3, left, 0) == Some([])
    ensures DecodeFrom("==", 2, left, 0) == Some([])
  {
    assert "=="[1..] == "=";
    assert DecodeFrom("=", 2, left, 1) == Some([]);
  }

  lemma {:induction false} EncodeReadBack(data: seq<Byte>)
    ensures DecodeFrom(Encode(data), 0, 0, 0) == Some(data)
  {
    if data == [] {
    } else if |data| == 1 {
      ReadSingle(data[0]);
      Emitted(data, Some([]));
    } else if |data| == 2 {
      ReadTwo(data[0], data[1]);
      Emitted(data, Some([]));
    } else {
      EncodeReadBack(data[3..]);
      ReadThree(data[0], data[1], data[2], Encode(data[3..]));
      Emitted(data, Some(data[3..]));
    }
  }

  lemma Emitted(data: seq<Byte>, rest: Option<seq<Byte>>)
    requires rest.Some? && data != []
    requires rest.value == if |data| >= 3 then data[3..] else []
    ensures |data| == 1 ==> Emit(data[0], rest) == Some(data)
    ensures |data| == 2 ==> Emit(data[0], Emit(data[1], rest)) == Some(data)
    ensures |data| >= 3 ==> Emit(data[0], Emit(data[1], Emit(data[2], rest))) == Some(data)
  {
    if |data| >= 3 {
      assert data == [data[0]] + ([data[1]] + ([data[2]] + data[3..]));
    } else if |data| == 2 {
      assert data == [data[0]] + ([data[1]] + []);
    } else {
      assert data == [data[0]] + [];
    }
  }

  /** A group's sextets are its bits, the first bits first, and zeros behind the last byte. */
  lemma GroupsAreTheBits(a: Byte, b: Byte, c: Byte) returns (v0: Sextet, v1: Sextet, v2: Sextet, v3: Sextet)
    ensures Three(a, b, c) == [CharOf(v0), CharOf(v1), CharOf(v2), CharOf(v3)]
    ensures v0 * 262_144 + v1 * 4096 + v2 * 64 + v3 == a * 65_536 + b * 256 + c
    ensures c == 0 ==> Two(a, b) == [CharOf(v0), CharOf(v1), CharOf(v2)]
    ensures b == 0 && c == 0 ==> One(a) == [CharOf(v0), CharOf(v1)]
  {
    v0, v1, v2, v3 := a / 4, a % 4 * 16 + b / 16, b % 16 * 4 + c / 64, c % 64;
  }

  // ---- what the decoder makes of any text -----------------------------------------------------

  /** The alphabet of the RFC, its table 2, in three pieces. */
  const UPPER: string := "ABCDEFGHIJKLMNOPQRSTUVWXYZ"
  const LOWER: string := "abcdefghijklmnopqrstuvwxyz"
  const OTHERS: string := "0123456789-_"

  function RfcChar(v: Sextet): char {
    if v < 26 then UPPER[v] else if v < 52 then LOWER[v - 26] else OTHERS[v - 52]
  }

  /** The encoder writes that alphabet; the decoder reads it, and the two characters of table 1. */
  lemma AlphabetIsTheRfcs(v: Sextet, c: char)
    ensures CharOf(v) == RfcChar(v)
    ensures ValueOf(c) == Some(v) <==> c == RfcChar(v) || (v == 62 && c == '+') || (v == 63 && c == '/')
  {
    if v < 26 {
      UpperAt(v);
    } else if v < 52 {
      LowerAt(v - 26);
    } else {
      OtherAt(v - 52);
    }
  }

  lemma UpperAt(k: nat)
    requires k < 26
    ensures UPPER[k] == 'A' + k as char
  {
    if k < 13 {
      assert UPPER[..13] == "ABCDEFGHIJKLM" && UPPER[..13][k] == 'A' + k as char;
    } else {
      assert UPPER[13..] == "NOPQRSTUVWXYZ" && UPPER[13..][k - 13] == 'N' + (k - 13) as char;
    }
  }

  lemma LowerAt(k: nat)
    requires k < 26
    ensures LOWER[k] == 'a' + k as char
  {
    if k < 13 {
      assert LOWER[..13] == "abcdefghijklm" && LOWER[..13][k] == 'a' + k as char;
    } else {
      assert LOWER[13..] == "nopqrstuvwxyz" && LOWER[13..][k - 13] == 'n' + (k - 13) as char;
    }
  }

  lemma OtherAt(k: nat)
    requires k < 12
    ensures OTHERS[k] == if k < 10 then '0' + k as char else if k == 10 then '-' else '_'
  {
  }

  function Prepend(bytes: seq<Byte>, rest: Option<seq<Byte>>): Option<seq<Byte>> {
    match rest
    case None => None
    case Some(more) => Some(bytes + more)
  }

  /** Four characters of the alphabet are 24 bits: three bytes, the first bits first. */
  lemma FourAreThreeBytes(v0: Sextet, v1: Sextet, v2: Sextet, v3: Sextet, rest: string)
      returns (b0: Byte, b1: Byte, b2: Byte)
    ensures b0 * 65_536 + b1 * 256 + b2 == v0 * 262_144 + v1 * 4096 + v2 * 64 + v3
    ensures DecodeFrom([CharOf(v0)] + ([CharOf(v1)] + ([CharOf(v2)] + ([CharOf(v3)] + rest))), 0, 0, 0) ==
            Prepend([b0, b1, b2], DecodeFrom(rest, 0, 0, 0))
  {
    b0, b1, b2 := v0 * 4 + v1 / 16, v1 % 16 * 16 + v2 / 4, v2 % 4 * 64 + v3;
    var r3 := [CharOf(v3)] + rest;
    var r2 := [CharOf(v2)] + r3;
    ReadOne(v0, [CharOf(v1)] + r2, 0, 0);
    ReadOne(v1, r2, 1, v0);
    ReadOne(v2, r3, 2, v1 % 16);
    ReadOne(v3, rest, 3, v2 % 4);
    EmitsThree(b0, b1, b2, DecodeFrom(rest, 0, 0, 0));
  }

  lemma EmitsThree(b0: Byte, b1: Byte, b2: Byte, rest: Option<seq<Byte>>)
    ensures Emit(b0, Emit(b1, Emit(b2, rest))) == Prepend([b0, b1, b2], rest)
  {
    if rest.Some? {
      assert [b0] + ([b1] + ([b2] + rest.value)) == [b0, b1, b2] + rest.value;
    }
  }

  /** A group cut short raises unless it is padded to four, and padded it ends the text, whatever follows. */
  lemma ShortGroups(v0: Sextet, v1: Sextet, v2: Sextet, rest: string)
    ensures DecodeFrom("", 0, 0, 0) == Some([]) && DecodeFrom([CharOf(v0)], 0, 0, 0) == None
    ensures DecodeFrom([CharOf(v0)] + [CharOf(v1)], 0, 0, 0) == None
    ensures DecodeFrom([CharOf(v0)] + ([CharOf(v1)] + "="), 0, 0, 0) == None
    ensures DecodeFrom([CharOf(v0)] + ([CharOf(v1)] + [CharOf(v2)]), 0, 0, 0) == None
    ensures DecodeFrom([CharOf(v0)] + ([CharOf(v1)] + ("=" + ("=" + rest))), 0, 0, 0) == Some([v0 * 4 + v1 / 16])
    ensures DecodeFrom([CharOf(v0)] + ([CharOf(v1)] + ([CharOf(v2)] + ("=" + rest))), 0, 0, 0) ==
            Some([v0 * 4 + v1 / 16, v1 % 16 * 16 + v2 / 4])
  {
    assert [CharOf(v0)] + "" == [CharOf(v0)] && [CharOf(v1)] + "" == [CharOf(v1)] && [CharOf(v2)] + "" == [CharOf(v2)];
    ReadOne(v0, "", 0, 0);
    ReadOne(v0, [CharOf(v1)], 0, 0);
    ReadOne(v1, "", 1, v0);
    ReadOne(v0, [CharOf(v1)] + "=", 0, 0);
    ReadOne(v1, "=", 1, v0);
    ReadOne(v0, [CharOf(v1)] + [CharOf(v2)], 0, 0);
    ReadOne(v1, [CharOf(v2)], 1, v0);
    ReadOne(v2, "", 2, v1 % 16);
    ShortPadded(v0, v1, v2, rest);
  }

  lemma ShortPadded(v0: Sextet, v1: Sextet, v2: Sextet, rest: string)
    ensures DecodeFrom([CharOf(v0)] + ([CharOf(v1)] + ("=" + ("=" + rest))), 0, 0, 0) == Some([v0 * 4 + v1 / 16])
    ensures DecodeFrom([CharOf(v0)] + ([CharOf(v1)] + ([CharOf(v2)] + ("=" + rest))), 0, 0, 0) ==
            Some([v0 * 4 + v1 / 16, v1 % 16 * 16 + v2 / 4])
  {
    var b0: Byte, b1: Byte := v0 * 4 + v1 / 16, v1 % 16 * 16 + v2 / 4;
    var one, two := "=" + rest, "=" + ("=" + rest);
    PadsEnd(rest, v1 % 16, v2 % 4);
    ReadOne(v0, [CharOf(v1)] + two, 0, 0);
    ReadOne(v1, two, 1, v0);
    ReadOne(v0, [CharOf(v1)] + ([CharOf(v2)] + one), 0, 0);
    ReadOne(v1, [CharOf(v2)] + one, 1, v0);
    ReadOne(v2, one, 2, v1 % 16);
    EmitsOne(b0, []);
    EmitsOne(b1, []);
    EmitsOne(b0, [b1]);
    assert [b0] + [b1] == [b0, b1] && [b0] + [] == [b0] && [b1] + [] == [b1];
  }

  lemma EmitsOne(b: Byte, rest: seq<Byte>)
    ensures Emit(b, Some(rest)) == Some([b] + rest)
  {
  }

  lemma PadsEnd(rest: string, left2: nat, left3: nat)
    ensures DecodeFrom("=" + rest, 3, left3, 0) == Some([])
    ensures DecodeFrom("=" + ("=" + rest), 2, left2, 0) == Some([])
  {
    var one, two := "=" + rest, "=" + ("=" + rest);
    assert one[0] == '=' && two[0] == '=' && two[1..] == one;
    assert DecodeFrom(one, 2, left2, 1) == Some([]);
  }

  /** Padding that completes nothing is skipped. */
  lemma StrayPads(v0: Sextet, v1: Sextet, v2: Sextet, rest: string)
    ensures DecodeFrom("=" + rest, 0, 0, 0) == DecodeFrom(rest, 0, 0, 0)
    ensures DecodeFrom([CharOf(v0)] + ("=" + rest), 0, 0, 0) == DecodeFrom([CharOf(v0)] + rest, 0, 0, 0)
    ensures DecodeFrom([CharOf(v0)] + ([CharOf(v1)] + ("=" + ([CharOf(v2)] + rest))), 0, 0, 0) ==
            DecodeFrom([CharOf(v0)] + ([CharOf(v1)] + ([CharOf(v2)] + rest)), 0, 0, 0)
  {
    var padded := "=" + rest;
    assert padded[1..] == rest;
    ReadOne(v0, padded, 0, 0);
    ReadOne(v0, rest, 0, 0);
    var more := [CharOf(v2)] + rest;
    var late := "=" + more;
    assert late[1..] == more && more[1..] == rest;
    CharReadBack(v2);
    ReadOne(v0, [CharOf(v1)] + late, 0, 0);
    ReadOne(v1, late, 1, v0);
    ReadOne(v0, [CharOf(v1)] + more, 0, 0);
    ReadOne(v1, more, 1, v0);
  }

  /** Any other character outside the alphabet is skipped wherever it stands. */
  lemma {:induction false} OthersAreSkipped(a: string, c: char, b: string, quad: nat, left: nat, pads: nat)
    requires quad < 4 && c != '=' && ValueOf(c).None?
    ensures DecodeFrom(a + ([c] + b), quad, left, pads) == DecodeFrom(a + b, quad, left, pads)
    decreases |a|
  {
    var s, t := a + ([c] + b), a + b;
    if a == "" {
      assert s[0] == c && s[1..] == b && t == b;
    } else {
      assert s[0] == t[0] == a[0] && s[1..] == a[1..] + ([c] + b) && t[1..] == a[1..] + b;
      OthersAreSkipped(a[1..], c, b, quad, left, pads);
      OthersAreSkipped(a[1..], c, b, quad, left, pads + 1);
      if ValueOf(a[0]).Some? {
        var v := ValueOf(a[0]).value;
        OthersAreSkipped(a[1..], c, b, 1, v, 0);
        OthersAreSkipped(a[1..], c, b, 2, v % 16, 0);
        OthersAreSkipped(a[1..], c, b, 3, v % 4, 0);
        OthersAreSkipped(a[1..], c, b, 0, 0, 0);
      }
    }
  }

  /** The whole decoder: text that is not ASCII raises, other text is read from the start. */
  lemma DecodeIs(s: string)
    ensures Decode(s) == if forall k :: 0 <= k < |s| ==> s[k] as int < 128 then DecodeFrom(s, 0, 0, 0) else None
  {
  }

  // ---- without the padding --------------------------------------------------------------------

  function RStripPads(s: string): string {
    if s != "" && s[|s| - 1] == '=' then RStripPads(s[..|s| - 1]) else s
  }

  function Pads(n: nat): string {
    if n == 0 then "" else "=" + Pads(n - 1)
  }

  /** `-len(s) % 4`. */
  function PadCount(length: nat): nat {
    (4 - length % 4) % 4
  }

  function Repad(s: string): string {
    s + Pads(PadCount(|s|))
  }

  function Unpadded(data: seq<Byte>): string {
    RStripPads(Encode(data))
  }

  /** Text of the alphabet only. */
  predicate Bare(s: string) {
    forall k :: 0 <= k < |s| ==> s[k] != '=' && s[k] != '.' && s[k] < 128 as char
  }

  lemma {:induction false} StripKeepsBare(s: string)
    requires Bare(s)
    ensures RStripPads(s) == s && RStripPads(s + "=") == s && RStripPads(s + "==") == s
  {
    assert (s + "=")[..|s|] == s && (s + "==")[..|s| + 1] == s + "=";
    assert (s + "=")[|s|] == '=' && (s + "==")[|s| + 1] == '=';
  }

  lemma GroupsAreBare(a: Byte, b: Byte, c: Byte)
    ensures Bare(One(a)) && Bare(Two(a, b)) && Bare(Three(a, b, c))
  {
    CharReadBack(a / 4);
    CharReadBack(a % 4 * 16);
    CharReadBack(a % 4 * 16 + b / 16);
    CharReadBack(b % 16 * 4);
    CharReadBack(b % 16 * 4 + c / 64);
    CharReadBack(c % 64);
  }

  /** The characters of an encoding, without its padding. */
  function Sextets(data: seq<Byte>): (s: string)
    ensures |s| == (4 * |data| + 2) / 3
  {
    if data == [] then ""
    else if |data| == 1 then One(data[0])
    else if |data| == 2 then Two(data[0], data[1])
    else Three(data[0], data[1], data[2]) + Sextets(data[3..])
  }

  lemma {:induction false} SextetsAreBare(data: seq<Byte>)
    ensures Bare(Sextets(data))
  {
    if data == [] {
    } else if |data| < 3 {
      GroupsAreBare(data[0], data[|data| - 1], 0);
    } else {
      GroupsAreBare(data[0], data[1], data[2]);
      SextetsAreBare(data[3..]);
    }
  }

  lemma {:induction false} EncodeSplits(data: seq<Byte>)
    ensures Encode(data) == Repad(Sextets(data)) && PadCount(|Sextets(data)|) <= 2
  {
    SmallPads();
    if data == [] {
    } else if |data| == 1 {
      assert |Sextets(data)| == 2 && PadCount(2) == 2;
    } else if |data| == 2 {
      assert |Sextets(data)| == 3 && PadCount(3) == 1;
    } else {
      EncodeSplits(data[3..]);
      RepadAfterGroup(Three(data[0], data[1], data[2]), Sextets(data[3..]));
    }
  }

  lemma RepadAfterGroup(group: string, rest: string)
    requires |group| == 4
    ensures PadCount(|group + rest|) == PadCount(|rest|) && Repad(group + rest) == group + Repad(rest)
  {
    assert |group + rest| % 4 == |rest| % 4;
    assert (group + rest) + Pads(PadCount(|rest|)) == group + (rest + Pads(PadCount(|rest|)));
  }

  lemma SmallPads()
    ensures Pads(0) == "" && Pads(1) == "=" && Pads(2) == "=="
  {
    assert Pads(1) == "=" + Pads(0);
    assert Pads(2) == "=" + Pads(1);
  }

  lemma UnpaddedIsSextets(data: seq<Byte>)
    ensures Unpadded(data) == Sextets(data)
  {
    EncodeSplits(data);
    SextetsAreBare(data);
    StripKeepsBare(Sextets(data));
    SmallPads();
    assert Sextets(data) + "" == Sextets(data);
  }

  lemma RepaddedIsAscii(s: string)
    requires Bare(s) && PadCount(|s|) <= 2
    ensures IsAscii(Repad(s))
  {
    SmallPads();
  }

  /** Stripping the padding and putting it back changes nothing, and what is left reads back as the bytes encoded. */
  lemma UnpaddedReadBack(data: seq<Byte>)
    ensures Bare(Unpadded(data)) && |Unpadded(data)| == (4 * |data| + 2) / 3
    ensures Repad(Unpadded(data)) == Encode(data) && Decode(Repad(Unpadded(data))) == Some(data)
  {
    UnpaddedIsSextets(data);
    SextetsAreBare(data);
    EncodeSplits(data);
    RepaddedIsAscii(Sextets(data));
    EncodeReadBack(data);
  }
}

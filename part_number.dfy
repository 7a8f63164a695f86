/** A Garmin part number "AAA-BCCCC-DD" (product kind, hardware kind,
    hardware id, release). On disk it is a 9-byte integer holding twelve
    6-bit characters, each stored as its ASCII code minus 0x20, most
    significant character first. Text is handled as bytes: `from_str`
    works on the UTF-8 bytes of its argument, and `to_string` only ever
    produces ASCII. */
module PartNumber {
  import opened Bytes
  import opened Wrappers

  /** The bytes of the integer `from_raw` reads. */
  const RAW_LEN: nat := 9
  /** The characters the integer unpacks into, and the shortest text
      `from_str` accepts. */
  const TEXT_LEN: nat := 12
  /** What `get_value` adds to each 6-bit group. */
  const CHAR_OFFSET: byte := 0x20
  const DASH: byte := 0x2D
  const ZERO: byte := 0x30

  /** `PartNumber::Simple(PnSimple { kind, hw_kind, hw_id, rel })`. */
  datatype PartNumber = Simple(kind: u16, hwKind: byte, hwId: u16, rel: byte)

  // ---------------------------------------------------------------------
  // Six-bit groups

  function Pow64(n: nat): (r: nat)
    ensures r > 0
  {
    if n == 0 then 1 else 64 * Pow64(n - 1)
  }

  /** `base6(x, k)`: bits 6k to 6k+5 of `x`. The source masks with
      `0b111111 << 6k` and shifts back by 6k, which for the u128 it works
      on is the same as shifting by six k times and keeping six bits. */
  function Base6(x: nat, k: nat): (r: byte)
    ensures r < 64
  {
    if k == 0 then x % 64 else Base6(x / 64, k - 1)
  }

  /** The character `get_value` stores for group `k`: the group plus 0x20,
      added with `wrapping_add` (which never wraps, as a group is below
      64). */
  function GroupChar(x: nat, k: nat): (c: byte)
    ensures CHAR_OFFSET <= c < CHAR_OFFSET + 64
  {
    (Base6(x, k) + CHAR_OFFSET) % 0x100
  }

  /** The `n` characters of the low `6n` bits of `x`, most significant
      first. */
  function Groups(x: nat, n: nat): (cs: seq<byte>)
    ensures |cs| == n
  {
    if n == 0 then [] else Groups(x / 64, n - 1) + [GroupChar(x, 0)]
  }

  /** The characters of `Groups` are the groups `get_value` computes. */
  lemma {:induction false} GroupsIndex(x: nat, n: nat, i: nat)
    requires i < n
    ensures Groups(x, n)[i] == GroupChar(x, n - 1 - i)
  {
    if i < n - 1 {
      GroupsIndex(x / 64, n - 1, i);
    }
  }

  /** The number a sequence of characters spells, reading each as a 6-bit
      group offset by 0x20, most significant first. */
  function GroupsValue(cs: seq<byte>): int
  {
    if cs == [] then 0 else GroupsValue(cs[..|cs| - 1]) * 64 + (cs[|cs| - 1] as int - CHAR_OFFSET as int)
  }

  /** `get_value` is lossless: the twelve characters spell the integer
      back, for every integer of at most 72 bits. */
  lemma {:induction false} GroupsValueGroups(x: nat, n: nat)
    ensures GroupsValue(Groups(x, n)) == x % Pow64(n)
  {
    if n > 0 {
      var cs := Groups(x, n);
      assert cs[..n - 1] == Groups(x / 64, n - 1);
      GroupsValueGroups(x / 64, n - 1);
      ModStep(x, Pow64(n - 1));
    }
  }

  lemma ModStep(x: nat, p: nat)
    requires p > 0
    ensures (x / 64 % p) * 64 + x % 64 == x % (64 * p)
  {
    var q := x / 64;
    var r := x % 64;
    var a := q / p;
    var b := q % p;
    assert x == 64 * (p * a + b) + r;
    assert x == (64 * p) * a + (64 * b + r);
    DivModUnique(x, 64 * p, a, 64 * b + r);
  }

  /** `get_value`: fills twelve characters, group 11 first. */
  method GetValue(x: nat) returns (buff: seq<byte>)
    ensures |buff| == TEXT_LEN
    ensures forall i :: 0 <= i < TEXT_LEN ==> buff[i] == GroupChar(x, TEXT_LEN - 1 - i)
    ensures buff == Groups(x, TEXT_LEN)
  {
    var ret := new byte[TEXT_LEN];
    var i := 0;
    while i < TEXT_LEN
      invariant i <= TEXT_LEN
      invariant forall j :: 0 <= j < i ==> ret[j] == GroupChar(x, TEXT_LEN - 1 - j)
    {
      ret[i] := (Base6(x, TEXT_LEN - 1 - i) + CHAR_OFFSET) % 0x100;
      i := i + 1;
    }
    buff := ret[..];
    forall i | 0 <= i < TEXT_LEN
      ensures buff[i] == Groups(x, TEXT_LEN)[i]
    {
      GroupsIndex(x, TEXT_LEN, i);
    }
  }

  // ---------------------------------------------------------------------
  // Decimal text

  predicate IsDigit(b: byte)
  {
    ZERO <= b <= ZERO + 9
  }

  predicate AllDigits(s: seq<byte>)
  {
    forall i :: 0 <= i < |s| ==> IsDigit(s[i])
  }

  /** `s[lo..hi]` is all digits. */
  predicate DigitsIn(s: seq<byte>, lo: nat, hi: nat)
    requires lo <= hi <= |s|
  {
    forall i :: lo <= i < hi ==> IsDigit(s[i])
  }

  lemma DigitsInSlice(s: seq<byte>, lo: nat, hi: nat)
    requires lo <= hi <= |s|
    ensures DigitsIn(s, lo, hi) <==> AllDigits(s[lo..hi])
  {
    if DigitsIn(s, lo, hi) {
      forall i | 0 <= i < hi - lo
        ensures IsDigit(s[lo..hi][i])
      {
        assert s[lo..hi][i] == s[lo + i];
      }
    }
    if AllDigits(s[lo..hi]) {
      forall i | lo <= i < hi
        ensures IsDigit(s[i])
      {
        assert s[i] == s[lo..hi][i - lo];
      }
    }
  }

  function Pow10(n: nat): (r: nat)
    ensures r > 0
  {
    if n == 0 then 1 else 10 * Pow10(n - 1)
  }

  /** `u16::from_str` / `u8::from_str` of a string of digits. */
  function DecimalValue(ds: seq<byte>): (n: nat)
    requires AllDigits(ds)
    ensures n < Pow10(|ds|)
  {
    if ds == [] then 0
    else DecimalValue(ds[..|ds| - 1]) * 10 + (ds[|ds| - 1] - ZERO)
  }

  /** `{}` of a number: its decimal digits without leading zeros. */
  function Digits(n: nat): (s: seq<byte>)
    ensures 1 <= |s|
  {
    if n < 10 then [ZERO + n] else Digits(n / 10) + [ZERO + n % 10]
  }

  /** `{:0w}`: left-padded with zeros to at least `w` characters. */
  function Pad(s: seq<byte>, w: nat): (r: seq<byte>)
    ensures |r| == if |s| >= w then |s| else w
  {
    if |s| >= w then s else seq(w - |s|, _ => ZERO) + s
  }

  /** Exactly `w` decimal digits of `n mod 10^w`. */
  function Fixed(n: nat, w: nat): (s: seq<byte>)
    ensures |s| == w && AllDigits(s)
  {
    if w == 0 then [] else Fixed(n / 10, w - 1) + [ZERO + n % 10]
  }

  /** A number has at most `w` digits exactly when it is below 10^w. */
  lemma {:induction false} DigitsWidth(n: nat, w: nat)
    requires w >= 1
    ensures |Digits(n)| <= w <==> n < Pow10(w)
  {
    if n >= 10 && w > 1 {
      DigitsWidth(n / 10, w - 1);
    }
  }

  lemma {:induction false} FixedZero(w: nat)
    ensures Fixed(0, w) == seq(w, _ => ZERO)
  {
    if w > 0 {
      FixedZero(w - 1);
    }
  }

  /** Padding the digits of a number that has at most `w` digits gives
      its fixed-width form. */
  lemma {:induction false} PadDigits(n: nat, w: nat)
    requires w >= 1 && n < Pow10(w)
    ensures Pad(Digits(n), w) == Fixed(n, w)
  {
    if n < 10 {
      FixedZero(w - 1);
    } else {
      DigitsWidth(n / 10, w - 1);
      PadDigits(n / 10, w - 1);
      DigitsWidth(n, w);
      var d := Digits(n / 10);
      assert seq(w - 1 - |d|, _ => ZERO) == seq(w - |Digits(n)|, _ => ZERO);
      AppendAssoc(seq(w - 1 - |d|, _ => ZERO), d, [ZERO + n % 10]);
    }
  }

  /** Fixed-width digits read back as the number they were made of. */
  lemma {:induction false} DecimalValueFixed(n: nat, w: nat)
    requires n < Pow10(w)
    ensures DecimalValue(Fixed(n, w)) == n
  {
    if w > 0 {
      var s := Fixed(n, w);
      assert s[..w - 1] == Fixed(n / 10, w - 1);
      DecimalValueFixed(n / 10, w - 1);
    }
  }

  lemma FixedDigit(b: byte)
    requires IsDigit(b)
    ensures Fixed(b - ZERO, 1) == [b]
  {
    assert Fixed((b - ZERO) / 10, 0) == [];
  }

  lemma DecimalSnoc(ds: seq<byte>, b: byte)
    requires AllDigits(ds) && IsDigit(b)
    ensures AllDigits(ds + [b])
    ensures DecimalValue(ds + [b]) == DecimalValue(ds) * 10 + (b - ZERO)
  {
    assert (ds + [b])[..|ds|] == ds;
  }

  /** Digits read as a number and written back at the same width are the
      same digits: leading zeros are restored by the padding. */
  lemma {:induction false} FixedDecimalValue(ds: seq<byte>)
    requires AllDigits(ds)
    ensures Fixed(DecimalValue(ds), |ds|) == ds
  {
    if ds != [] {
      var init := ds[..|ds| - 1];
      FixedDecimalValue(init);
      assert ds == init + [ds[|ds| - 1]];
    }
  }

  // ---------------------------------------------------------------------
  // Parsing and printing

  /** The fixed shape `parse` accepts: three digits, '-', any byte, four
      digits, '-', two digits. */
  predicate Shaped(s: seq<byte>)
  {
    && |s| >= TEXT_LEN
    && DigitsIn(s, 0, 3)
    && s[3] == DASH
    && DigitsIn(s, 5, 9)
    && s[9] == DASH
    && DigitsIn(s, 10, 12)
  }

  /** `PartNumber::parse`: the three numbers are read in decimal and the
      hardware kind is the byte minus '0' (u8 arithmetic, wrapping below
      '0'). The remaining input is returned. Three, four and two digits
      always fit in their u16 and u8 fields, so the `from_str` calls
      never fail. */
  function Parse(input: seq<byte>): (r: Result<(seq<byte>, PartNumber)>)
    ensures r.Ok? <==> Shaped(input)
    ensures r.Err? ==> r.error == PartNumberUnparsable
    ensures r.Ok? ==>
              && r.value.0 == input[TEXT_LEN..]
              && r.value.1.kind < 1000 && r.value.1.hwId < 10000 && r.value.1.rel < 100
              && r.value.1.hwKind as int == (input[4] as int - ZERO as int) % 0x100
    ensures r.Ok? ==>
              && AllDigits(input[0..3]) && r.value.1.kind as int == DecimalValue(input[0..3])
              && AllDigits(input[5..9]) && r.value.1.hwId as int == DecimalValue(input[5..9])
              && AllDigits(input[10..12]) && r.value.1.rel as int == DecimalValue(input[10..12])
  {
    if !Shaped(input) then Err(PartNumberUnparsable)
    else
      DigitsInSlice(input, 0, 3);
      DigitsInSlice(input, 5, 9);
      DigitsInSlice(input, 10, 12);
      var kind := DecimalValue(input[0..3]);
      var hwId := DecimalValue(input[5..9]);
      var rel := DecimalValue(input[10..12]);
      Ok((input[TEXT_LEN..], Simple(kind, (input[4] - ZERO) % 0x100, hwId, rel)))
  }

  /** The text of a part number: "AAA-BCCCC-DD" with the four fields
      `a`, `b`, `c` and `d`. */
  function Layout(a: seq<byte>, b: seq<byte>, c: seq<byte>, d: seq<byte>): seq<byte>
  {
    a + [DASH] + b + c + [DASH] + d
  }

  /** Where `parse` finds the fields of a layout of fixed widths. */
  lemma LayoutSlices(a: seq<byte>, b: seq<byte>, c: seq<byte>, d: seq<byte>, rest: seq<byte>)
    requires |a| == 3 && |b| == 1 && |c| == 4 && |d| == 2
    ensures var s := Layout(a, b, c, d) + rest;
            && |s| == TEXT_LEN + |rest|
            && s[0..3] == a && s[3] == DASH && s[4] == b[0] && s[5..9] == c && s[9] == DASH && s[10..12] == d
            && s[TEXT_LEN..] == rest
  {
    var s := Layout(a, b, c, d) + rest;
    var tail := [DASH] + b + c + [DASH] + d + rest;
    assert s == a + tail;
    assert s[0..3] == a;
    assert s[3..] == tail;
    assert tail[1..] == b + (c + ([DASH] + d + rest)) by {
      assert tail == [DASH] + (b + (c + ([DASH] + d + rest)));
    }
    assert s[5..] == c + ([DASH] + d + rest);
    assert s[5..9] == c;
    assert s[9..] == [DASH] + (d + rest);
    assert s[10..] == d + rest;
  }

  /** The first twelve bytes of a shaped text are the layout of its
      fields. */
  lemma SlicesLayout(s: seq<byte>)
    requires Shaped(s)
    ensures s[..TEXT_LEN] == Layout(s[0..3], [s[4]], s[5..9], s[10..12])
  {
    LayoutSlices(s[0..3], [s[4]], s[5..9], s[10..12], []);
    var t := Layout(s[0..3], [s[4]], s[5..9], s[10..12]) + [];
    assert t[..3] == t[0..3];
    assert forall i | 0 <= i < TEXT_LEN :: t[i] == s[i] by {
      forall i | 0 <= i < TEXT_LEN
        ensures t[i] == s[i]
      {
        if i < 3 {
          assert t[i] == t[0..3][i];
        } else if 5 <= i < 9 {
          assert t[i] == t[5..9][i - 5];
        } else if 10 <= i {
          assert t[i] == t[10..12][i - 10];
        }
      }
    }
  }

  /** `to_string`: `{:03}-{}{:04}-{:02}`. */
  function ToString(pn: PartNumber): (r: seq<byte>)
    ensures |r| == TEXT_LEN <==> Printable(pn)
  {
    DigitsWidth(pn.kind, 3);
    DigitsWidth(pn.hwKind, 1);
    DigitsWidth(pn.hwId, 4);
    DigitsWidth(pn.rel, 2);
    Layout(Pad(Digits(pn.kind), 3), Digits(pn.hwKind), Pad(Digits(pn.hwId), 4), Pad(Digits(pn.rel), 2))
  }

  /** The part numbers whose text has the fixed shape again. */
  predicate Printable(pn: PartNumber)
  {
    pn.kind < 1000 && pn.hwKind < 10 && pn.hwId < 10000 && pn.rel < 100
  }

  /** The printed form of a printable part number is its four fields at
      their fixed widths, twelve characters in all. */
  lemma ToStringFixed(pn: PartNumber)
    requires Printable(pn)
    ensures ToString(pn) == Layout(Fixed(pn.kind, 3), Fixed(pn.hwKind, 1), Fixed(pn.hwId, 4), Fixed(pn.rel, 2))
    ensures |ToString(pn)| == TEXT_LEN
  {
    PadDigits(pn.kind, 3);
    PadDigits(pn.hwId, 4);
    PadDigits(pn.rel, 2);
    assert Digits(pn.hwKind) == Fixed(pn.hwKind, 1);
  }

  /** Printing and parsing back gives the part number, whatever follows
      the text. */
  lemma ParseToString(pn: PartNumber, rest: seq<byte>)
    requires Printable(pn)
    ensures Parse(ToString(pn) + rest) == Ok((rest, pn))
  {
    ToStringFixed(pn);
    LayoutSlices(Fixed(pn.kind, 3), Fixed(pn.hwKind, 1), Fixed(pn.hwId, 4), Fixed(pn.rel, 2), rest);
    DecimalValueFixed(pn.kind, 3);
    DecimalValueFixed(pn.hwId, 4);
    DecimalValueFixed(pn.rel, 2);
  }

  /** Parsing and printing back gives the twelve characters read, when
      the hardware kind is a digit (any other byte prints as a number of
      one to three digits). */
  lemma ToStringParse(s: seq<byte>)
    requires Parse(s).Ok? && IsDigit(s[4])
    ensures ToString(Parse(s).value.1) == s[..TEXT_LEN]
  {
    DigitsInSlice(s, 0, 3);
    DigitsInSlice(s, 5, 9);
    DigitsInSlice(s, 10, 12);
    ToStringOfDigits(s[0..3], s[4], s[5..9], s[10..12]);
    SlicesLayout(s);
  }

  /** Digit strings of widths 3, 4 and 2 and a digit, read as numbers,
      print back as themselves. */
  lemma ToStringOfDigits(a: seq<byte>, h: byte, c: seq<byte>, d: seq<byte>)
    requires |a| == 3 && |c| == 4 && |d| == 2
    requires AllDigits(a) && IsDigit(h) && AllDigits(c) && AllDigits(d)
    ensures ToString(Simple(DecimalValue(a), h - ZERO, DecimalValue(c), DecimalValue(d))) == Layout(a, [h], c, d)
  {
    var pn := Simple(DecimalValue(a), h - ZERO, DecimalValue(c), DecimalValue(d));
    ToStringFixed(pn);
    FixedDecimalValue(a);
    FixedDecimalValue(c);
    FixedDecimalValue(d);
    FixedDigit(h);
  }

  /** `PartNumber::from_raw`: fails on fewer than 9 bytes; otherwise
      unpacks the 9-byte integer into twelve characters, parses them and
      returns the bytes after the nine. */
  method FromRaw(e: Endian, x: seq<byte>) returns (r: Result<(seq<byte>, PartNumber)>)
    ensures |x| < RAW_LEN ==> r == Err(PartNumberTooSmall)
    ensures |x| >= RAW_LEN ==>
              var p := Parse(Groups(ReadUint(e, x[..RAW_LEN]), TEXT_LEN));
              && (r.Ok? <==> p.Ok?)
              && (r.Err? ==> r.error == PartNumberUnparsable)
              && (r.Ok? ==> r.value == (x[RAW_LEN..], p.value.1))
  {
    if |x| < RAW_LEN {
      return Err(PartNumberTooSmall);
    }
    var num := ReadUint(e, x[..RAW_LEN]);
    var buff := GetValue(num);
    var parsed := Parse(buff);
    if parsed.Err? {
      return Err(PartNumberUnparsable);
    }
    r := Ok((x[RAW_LEN..], parsed.value.1));
  }

  lemma {:induction false} Pow64Pow256(k: nat)
    ensures Pow64(4 * k) == Pow256(3 * k)
  {
    if k > 0 {
      Pow64Pow256(k - 1);
      var j := 4 * (k - 1);
      assert Pow64(j + 4) == 64 * Pow64(j + 3);
      assert Pow64(j + 3) == 64 * Pow64(j + 2);
      assert Pow64(j + 2) == 64 * Pow64(j + 1);
      assert Pow64(j + 1) == 64 * Pow64(j);
      var m := 3 * (k - 1);
      assert Pow256(m + 3) == 256 * Pow256(m + 2);
      assert Pow256(m + 2) == 256 * Pow256(m + 1);
      assert Pow256(m + 1) == 256 * Pow256(m);
    }
  }

  /** The twelve characters determine the nine bytes: `from_raw` reads
      nothing it cannot account for. */
  lemma RawCharsInjective(e: Endian, x: seq<byte>, y: seq<byte>)
    requires |x| == RAW_LEN && |y| == RAW_LEN
    requires Groups(ReadUint(e, x), TEXT_LEN) == Groups(ReadUint(e, y), TEXT_LEN)
    ensures x == y
  {
    var vx, vy := ReadUint(e, x), ReadUint(e, y);
    Pow64Pow256(3);
    GroupsValueGroups(vx, TEXT_LEN);
    GroupsValueGroups(vy, TEXT_LEN);
    DivModUnique(vx, Pow64(TEXT_LEN), 0, vx);
    DivModUnique(vy, Pow64(TEXT_LEN), 0, vy);
    ReadUintInjective(e, x, y);
  }

  /** Every text of characters 0x20 to 0x5F is what `get_value` makes of
      the number it spells. */
  lemma {:induction false} GroupsOfValue(cs: seq<byte>)
    requires forall i :: 0 <= i < |cs| ==> CHAR_OFFSET <= cs[i] < CHAR_OFFSET + 64
    ensures GroupsValue(cs) >= 0
    ensures Groups(GroupsValue(cs), |cs|) == cs
  {
    if cs != [] {
      var init := cs[..|cs| - 1];
      GroupsOfValue(init);
      var v := GroupsValue(cs);
      assert v / 64 == GroupsValue(init) && v % 64 == cs[|cs| - 1] - CHAR_OFFSET;
      assert cs == init + [cs[|cs| - 1]];
    }
  }

  /** `PartNumber::from_str` on the bytes of a string: fewer than twelve
      bytes are rejected before parsing, and bytes after the twelfth are
      ignored. */
  function FromStr(s: seq<byte>): (r: Result<PartNumber>)
    ensures |s| < TEXT_LEN ==> r == Err(PartNumberInvalidSize)
    ensures |s| >= TEXT_LEN ==> (r.Ok? <==> Shaped(s))
    ensures r.Ok? ==> Parse(s) == Ok((s[TEXT_LEN..], r.value))
  {
    if |s| < TEXT_LEN then Err(PartNumberInvalidSize)
    else
      var parsed :- Parse(s);
      Ok(parsed.1)
  }

  /** `from_str` reads back what `to_string` prints. */
  lemma FromStrToString(pn: PartNumber)
    requires Printable(pn)
    ensures FromStr(ToString(pn)) == Ok(pn)
  {
    ParseToString(pn, []);
    assert ToString(pn) + [] == ToString(pn);
    ToStringFixed(pn);
  }

  // ---------------------------------------------------------------------
  // The examples of the library's tests

  /** "010-10037-00" as bytes. */
  const EXAMPLE_TEXT: seq<byte> := [0x30, 0x31, 0x30, DASH, 0x31, 0x30, 0x30, 0x33, 0x37, DASH, 0x30, 0x30]
  /** The nine bytes of the test, least significant first. */
  const EXAMPLE_RAW_LE: seq<byte> := [0x10, 0xD4, 0x5C, 0x13, 0x04, 0x45, 0x0D, 0x14, 0x41]
  const EXAMPLE_VALUE: nat := 0x41140D4504135CD410

  lemma ExampleValue()
    ensures ReadUint(LE, EXAMPLE_RAW_LE) == EXAMPLE_VALUE
    ensures ReadUint(BE, Reverse(EXAMPLE_RAW_LE)) == EXAMPLE_VALUE
  {
    var s := EXAMPLE_RAW_LE;
    assert LeValue(s[9..]) == 0;
    assert LeValue(s[8..]) == 0x41;
    assert LeValue(s[7..]) == 0x4114;
    assert LeValue(s[6..]) == 0x41140D;
    assert LeValue(s[5..]) == 0x41140D45;
    assert LeValue(s[4..]) == 0x41140D4504;
    assert LeValue(s[3..]) == 0x41140D450413;
    assert LeValue(s[2..]) == 0x41140D4504135C;
    assert LeValue(s[1..]) == 0x41140D4504135CD4;
    assert s[0..] == s;
    ReverseReverse(s);
  }

  lemma ExampleText()
    ensures Groups(EXAMPLE_VALUE, TEXT_LEN) == EXAMPLE_TEXT
  {
    var t := EXAMPLE_TEXT;
    assert GroupsValue(t[..0]) == 0;
    assert GroupsValue(t[..1]) == 0x10;
    assert t[..2][..1] == t[..1];
    assert GroupsValue(t[..2]) == 0x411;
    assert t[..3][..2] == t[..2];
    assert GroupsValue(t[..3]) == 0x10450;
    assert t[..4][..3] == t[..3];
    assert GroupsValue(t[..4]) == 0x41140D;
    assert t[..5][..4] == t[..4];
    assert GroupsValue(t[..5]) == 0x10450351;
    assert t[..6][..5] == t[..5];
    assert GroupsValue(t[..6]) == 0x41140D450;
    assert t[..7][..6] == t[..6];
    assert GroupsValue(t[..7]) == 0x10450351410;
    assert t[..8][..7] == t[..7];
    assert GroupsValue(t[..8]) == 0x41140D450413;
    assert t[..9][..8] == t[..8];
    assert GroupsValue(t[..9]) == 0x104503514104D7;
    assert t[..10][..9] == t[..9];
    assert GroupsValue(t[..10]) == 0x41140D4504135CD;
    assert t[..11][..10] == t[..10];
    assert GroupsValue(t[..11]) == 0x104503514104D7350;
    assert t[..12] == t;
    GroupsOfValue(t);
  }

  /** The fields of 010-1-0037-00 at their fixed widths spell
      "010-10037-00". */
  lemma ExampleLayout()
    ensures Layout(Fixed(10, 3), Fixed(1, 1), Fixed(37, 4), Fixed(0, 2)) == EXAMPLE_TEXT
  {
    ExampleFields();
    var a: seq<byte> := [0x30, 0x31, 0x30];
    var c: seq<byte> := [0x30, 0x30, 0x33, 0x37];
    var d: seq<byte> := [0x30, 0x30];
    assert a + [DASH] == [0x30, 0x31, 0x30, DASH];
    assert a + [DASH] + [0x31] == [0x30, 0x31, 0x30, DASH, 0x31];
    assert a + [DASH] + [0x31] + c == [0x30, 0x31, 0x30, DASH, 0x31, 0x30, 0x30, 0x33, 0x37];
    assert a + [DASH] + [0x31] + c + [DASH] == [0x30, 0x31, 0x30, DASH, 0x31, 0x30, 0x30, 0x33, 0x37, DASH];
  }

  lemma ExampleFields()
    ensures Fixed(10, 3) == [0x30, 0x31, 0x30]
    ensures Fixed(1, 1) == [0x31]
    ensures Fixed(37, 4) == [0x30, 0x30, 0x33, 0x37]
    ensures Fixed(0, 2) == [0x30, 0x30]
  {
    assert Fixed(0, 1) == [0x30];
    assert Fixed(1, 2) == [0x30, 0x31];
    assert Fixed(0, 2) == [0x30, 0x30];
    assert Fixed(3, 3) == [0x30, 0x30, 0x33];
  }

  /** 010-1-0037-00 prints as "010-10037-00". */
  lemma ExampleToString()
    ensures ToString(Simple(10, 1, 37, 0)) == EXAMPLE_TEXT
  {
    ToStringFixed(Simple(10, 1, 37, 0));
    ExampleLayout();
  }

  /** "010-10037-00" parses to 010-1-0037-00. */
  lemma ExampleParse()
    ensures Parse(EXAMPLE_TEXT) == Ok(([], Simple(10, 1, 37, 0)))
  {
    ExampleToString();
    ParseToString(Simple(10, 1, 37, 0), []);
    assert EXAMPLE_TEXT + [] == EXAMPLE_TEXT;
  }

  /** The test's bytes, read in either byte order, unpack to the text
      "010-10037-00", which parses to 010-1-0037-00. */
  lemma ExampleFromRaw()
    ensures Groups(ReadUint(LE, EXAMPLE_RAW_LE), TEXT_LEN) == EXAMPLE_TEXT
    ensures Groups(ReadUint(BE, Reverse(EXAMPLE_RAW_LE)), TEXT_LEN) == EXAMPLE_TEXT
    ensures Parse(EXAMPLE_TEXT) == Ok(([], Simple(10, 1, 37, 0)))
  {
    ExampleValue();
    ExampleText();
    ExampleParse();
  }

  /** "010-0037-00" is too short, and in "010-รง0037-00" the byte after
      the first dash is followed by the rest of a UTF-8 sequence instead
      of four digits. */
  lemma ExampleRejections()
    ensures FromStr([0x30, 0x31, 0x30, DASH, 0x30, 0x30, 0x33, 0x37, DASH, 0x30, 0x30]) == Err(PartNumberInvalidSize)
    ensures FromStr([0x30, 0x31, 0x30, DASH, 0xE0, 0xB8, 0xA3, 0xE0, 0xB8, 0x87, 0x30, 0x30, 0x33, 0x37, DASH, 0x30, 0x30])
            == Err(PartNumberUnparsable)
  {
    var s: seq<byte> := [0x30, 0x31, 0x30, DASH, 0xE0, 0xB8, 0xA3, 0xE0, 0xB8, 0x87, 0x30, 0x30, 0x33, 0x37, DASH, 0x30, 0x30];
    assert !IsDigit(s[5..9][0]);
  }
}

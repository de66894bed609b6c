/** Option and Result, as used by every other module. */
module Wrappers {
  datatype Option<+T> = None | Some(value: T)

  datatype Result<+T, +E> = Ok(value: T) | Err(error: E)
}

/** Base 16 text (section 8 of RFC 4648): one encoder, shared by the three programs, and
    the three decoders, which differ in what they do with text no encoder wrote. */
module Hex {
  import opened Wrappers

  type byte = x: int | 0 <= x < 256
  type nibble = x: int | 0 <= x < 16

  /** The errors of the Rust decoder. */
  datatype HexError = InvalidHexCharacter(c: char, index: nat) | OddLength | InvalidStringLength

  function Digit(n: nibble): char {
    if n < 10 then ('0' as int + n) as char else ('a' as int + n - 10) as char
  }

  function Value(c: char): Option<nibble> {
    if '0' <= c <= '9' then Some(c as int - '0' as int)
    else if 'a' <= c <= 'f' then Some(c as int - 'a' as int + 10)
    else if 'A' <= c <= 'F' then Some(c as int - 'A' as int + 10)
    else None
  }

  function Byte(high: nibble, low: nibble): byte { 16 * (high as int) + low }

  function Lower(c: char): char {
    if 'A' <= c <= 'F' then (c as int + 32) as char else c
  }

  predicate AllDigits(s: string) {
    forall i :: 0 <= i < |s| ==> Value(s[i]).Some?
  }

  function Encode(bs: seq<byte>): (s: string)
    ensures |s| == 2 * |bs|
  {
    if bs == [] then ""
    else var last := bs[|bs| - 1]; Encode(bs[..|bs| - 1]) + [Digit(last / 16), Digit(last % 16)]
  }

  // ---- Rust: hex::decode ----

  /** Two digits at a time; the first bad character is the one reported. */
  function DecodePairs(s: string): Result<seq<byte>, HexError>
    requires |s| % 2 == 0
  {
    if s == "" then Ok([])
    else
      var n := |s| - 2;
      match DecodePairs(s[..n])
      case Err(e) => Err(e)
      case Ok(front) =>
        match (Value(s[n]), Value(s[n + 1]))
        case (None, _) => Err(InvalidHexCharacter(s[n], n))
        case (_, None) => Err(InvalidHexCharacter(s[n + 1], n + 1))
        case (Some(high), Some(low)) => Ok(front + [Byte(high, low)])
  }

  function Decode(s: string): Result<seq<byte>, HexError> {
    if |s| % 2 != 0 then Err(OddLength) else DecodePairs(s)
  }

  /** The `unwrap_or_default` of the daemon's Verify arm. */
  function DecodeOrEmpty(s: string): seq<byte> {
    match Decode(s) case Ok(bs) => bs case Err(_) => []
  }

  // ---- Qt: QByteArray::fromHex, which skips every other character and pairs digits from the end ----

  function Digits(s: string): seq<nibble> {
    if s == "" then []
    else match Value(s[|s| - 1])
      case None => Digits(s[..|s| - 1])
      case Some(v) => Digits(s[..|s| - 1]) + [v]
  }

  function Pack(ds: seq<nibble>): seq<byte> {
    if ds == [] then []
    else if |ds| == 1 then [ds[0]]
    else Pack(ds[..|ds| - 2]) + [Byte(ds[|ds| - 2], ds[|ds| - 1])]
  }

  function QtFromHex(s: string): seq<byte> {
    Pack(Digits(s))
  }

  // ---- Dart: _fromHex and _decodeHex ----

  /** `int.tryParse` in base 16 on two characters: a sign may take the place of the first digit. */
  function TryParsePair(a: char, b: char): Option<int> {
    match (Value(a), Value(b))
    case (Some(high), Some(low)) => Some(Byte(high, low))
    case (None, Some(low)) => if a == '+' then Some(low) else if a == '-' then Some(-(low as int)) else None
    case _ => None
  }

  function Truncate(v: int): byte { v % 256 }

  /** None is the FormatException; a negative number is stored modulo 256 by `Uint8List`. */
  function DartFromHex(s: string): (r: Option<seq<byte>>) {
    if |s| % 2 != 0 then None
    else if s == "" then Some([])
    else match (DartFromHex(s[..|s| - 2]), TryParsePair(s[|s| - 2], s[|s| - 1]))
      case (Some(front), Some(v)) => Some(front + [Truncate(v)])
      case _ => None
  }

  lemma {:induction false} DartPrefix(s: string, k: nat)
    requires k <= |s| && k % 2 == 0 && |s| % 2 == 0
    ensures DartFromHex(s[..k]) == None ==> DartFromHex(s) == None
  {
    if k < |s| {
      assert s[..|s| - 2][..k] == s[..k];
      DartPrefix(s[..|s| - 2], k);
    } else {
      assert s[..k] == s;
    }
  }

  /** The loop shared by `_fromHex` and `_decodeHex`. */
  method FromHex(value: string) returns (r: Option<seq<byte>>)
    ensures r == DartFromHex(value)
  {
    if |value| % 2 != 0 { return None; }
    var bytes: seq<byte> := [];
    var index := 0;
    while index < |value|
      invariant 0 <= index <= |value| && index % 2 == 0
      invariant DartFromHex(value[..index]) == Some(bytes)
    {
      var parsed := TryParsePair(value[index], value[index + 1]);
      assert value[..index + 2][..index] == value[..index];
      if parsed == None {
        DartPrefix(value, index + 2);
        return None;
      }
      bytes := bytes + [Truncate(parsed.value)];
      index := index + 2;
    }
    assert value[..index] == value;
    r := Some(bytes);
  }

  // ---- The encoder and the decoders fit together ----

  lemma AllDigitsSplit(s: string, n: nat)
    requires n + 2 == |s|
    ensures AllDigits(s) <==> AllDigits(s[..n]) && Value(s[n]).Some? && Value(s[n + 1]).Some?
  {
    assert forall i :: 0 <= i < n ==> s[..n][i] == s[i];
    if AllDigits(s) {
      forall i | 0 <= i < n ensures Value(s[..n][i]).Some? { assert s[..n][i] == s[i]; }
    }
  }

  /** `hex::decode` accepts exactly the even-length texts of hex digits. */
  lemma {:induction false} StrictAcceptsExactly(s: string)
    ensures Decode(s).Ok? <==> |s| % 2 == 0 && AllDigits(s)
  {
    if |s| % 2 == 0 && s != "" {
      StrictAcceptsExactly(s[..|s| - 2]);
      AllDigitsSplit(s, |s| - 2);
    }
  }

  /** An odd length is reported first; otherwise it is the first character that is no hex digit. */
  lemma {:induction false} DecodeFails(s: string)
    ensures |s| % 2 != 0 ==> Decode(s) == Err(OddLength)
    ensures |s| % 2 == 0 && !AllDigits(s) ==>
              exists i :: 0 <= i < |s| && Decode(s) == Err(InvalidHexCharacter(s[i], i)) && Value(s[i]) == None &&
                          forall j :: 0 <= j < i ==> Value(s[j]).Some?
  {
    if |s| % 2 == 0 && s != "" {
      var n := |s| - 2;
      DecodeFails(s[..n]);
      StrictAcceptsExactly(s[..n]);
      AllDigitsSplit(s, n);
      if AllDigits(s[..n]) { assert forall j :: 0 <= j < n ==> s[..n][j] == s[j]; }
    }
  }

  lemma EncodeAppend(bs: seq<byte>, last: byte)
    ensures Encode(bs + [last]) == Encode(bs) + [Digit(last / 16), Digit(last % 16)]
  {
    assert (bs + [last])[..|bs|] == bs;
  }

  lemma LowerDigit(c: char)
    requires Value(c).Some?
    ensures Digit(Value(c).value) == Lower(c)
  {}

  /** What `hex::decode` returns encodes back to the text it was given, in lower case. */
  lemma {:induction false} EncodeDecode(s: string)
    requires Decode(s).Ok?
    ensures |Encode(Decode(s).value)| == |s|
    ensures forall i :: 0 <= i < |s| ==> Encode(Decode(s).value)[i] == Lower(s[i])
  {
    if s != "" {
      var n := |s| - 2;
      EncodeDecode(s[..n]);
      var front, last := Decode(s[..n]).value, Byte(Value(s[n]).value, Value(s[n + 1]).value);
      assert Decode(s).value == front + [last];
      EncodeAppend(front, last);
      LowerDigit(s[n]);
      LowerDigit(s[n + 1]);
      assert forall i :: 0 <= i < n ==> s[..n][i] == s[i];
    }
  }

  lemma DecodeAppend(s: string, a: char, b: char)
    requires |s| % 2 == 0 && Value(a).Some? && Value(b).Some? && Decode(s).Ok?
    ensures Decode(s + [a, b]) == Ok(Decode(s).value + [Byte(Value(a).value, Value(b).value)])
  {
    assert (s + [a, b])[..|s|] == s;
  }

  lemma DigitValue(n: nibble)
    ensures Value(Digit(n)) == Some(n)
  {}

  lemma {:induction false} DecodeEncode(bs: seq<byte>)
    ensures Decode(Encode(bs)) == Ok(bs)
  {
    if bs != [] {
      var front, last := bs[..|bs| - 1], bs[|bs| - 1];
      DecodeEncode(front);
      DigitValue(last / 16);
      DigitValue(last % 16);
      DecodeAppend(Encode(front), Digit(last / 16), Digit(last % 16));
      assert bs == front + [last];
    }
  }

  lemma DigitsAppend(s: string, c: char)
    requires Value(c).Some?
    ensures Digits(s + [c]) == Digits(s) + [Value(c).value]
  {
    assert (s + [c])[..|s|] == s;
  }

  lemma DigitsOfPair(s: string, a: char, b: char)
    requires Value(a).Some? && Value(b).Some?
    ensures Digits(s + [a] + [b]) == Digits(s) + [Value(a).value, Value(b).value]
  {
    DigitsAppend(s, a);
    DigitsAppend(s + [a], b);
  }

  lemma PackPair(ds: seq<nibble>, a: nibble, b: nibble)
    ensures Pack(ds + [a, b]) == Pack(ds) + [Byte(a, b)]
  {
    assert (ds + [a, b])[..|ds|] == ds;
  }

  lemma {:induction false} QtAgrees(s: string)
    requires Decode(s).Ok?
    ensures QtFromHex(s) == Decode(s).value
  {
    if s != "" {
      var n := |s| - 2;
      QtAgrees(s[..n]);
      assert s == s[..n] + [s[n]] + [s[n + 1]];
      DigitsOfPair(s[..n], s[n], s[n + 1]);
      PackPair(Digits(s[..n]), Value(s[n]).value, Value(s[n + 1]).value);
    }
  }

  lemma DartReads(high: nibble, low: nibble)
    ensures Truncate(Byte(high, low)) == Byte(high, low)
  {}

  lemma {:induction false} DartAgrees(s: string)
    requires Decode(s).Ok?
    ensures DartFromHex(s) == Some(Decode(s).value)
  {
    if s != "" {
      var n := |s| - 2;
      DartAgrees(s[..n]);
      DartReads(Value(s[n]).value, Value(s[n + 1]).value);
    }
  }

  /** Wherever the strict decoder succeeds, Qt and Dart decode the same bytes. */
  lemma DecodersAgree(s: string)
    requires Decode(s).Ok?
    ensures QtFromHex(s) == Decode(s).value
    ensures DartFromHex(s) == Some(Decode(s).value)
  {
    QtAgrees(s);
    DartAgrees(s);
  }

  /** What any of the three programs encodes, each of the three decodes to the same bytes. */
  lemma RoundTrip(bs: seq<byte>)
    ensures Decode(Encode(bs)) == Ok(bs)
    ensures QtFromHex(Encode(bs)) == bs
    ensures DartFromHex(Encode(bs)) == Some(bs)
  {
    DecodeEncode(bs);
    DecodersAgree(Encode(bs));
  }

  lemma DecodesBack(bs: seq<byte>)
    ensures DecodeOrEmpty(Encode(bs)) == bs
  {
    RoundTrip(bs);
  }

  /** The three decoders return the same bytes exactly for the even-length texts of hex digits. */
  lemma DecodersAgreeExactly(s: string)
    ensures (exists bs :: Decode(s) == Ok(bs) && QtFromHex(s) == bs && DartFromHex(s) == Some(bs)) <==>
            |s| % 2 == 0 && AllDigits(s)
  {
    StrictAcceptsExactly(s);
    if Decode(s).Ok? { DecodersAgree(s); }
  }

  /** In Dart a sign may stand in place of the first digit of a pair. */
  lemma DartReadsSigns(c: char)
    requires Value(c).Some?
    ensures DartFromHex(['+', c]) == Some([Value(c).value])
    ensures DartFromHex(['-', c]) == Some([(256 - Value(c).value) % 256])
    ensures Decode(['+', c]).Err? && Decode(['-', c]).Err?
  {
    DartPair('+', c);
    DartPair('-', c);
    StrictAcceptsExactly(['+', c]);
    StrictAcceptsExactly(['-', c]);
    assert ['+', c][0] == '+' && ['-', c][0] == '-';
  }

  lemma DartPair(a: char, b: char)
    ensures DartFromHex([a, b]) ==
            match TryParsePair(a, b) case Some(v) => Some([Truncate(v)]) case None => None
  {
    assert [a, b][..0] == [];
    assert forall v: byte :: [] + [v] == [v];
  }

  /** Elsewhere one text can be read in three ways: a sign passes in Dart, a stray character in Qt. */
  lemma DecodersDiffer() returns (s: string)
    ensures DartFromHex(s) == Some([255]) && Decode(s).Err? && QtFromHex(s) == [1]
  {
    s := "-1";
    assert s[..0] == "" && s[..1] == "-" && "-"[..0] == "";
    assert Digits("-") == [];
    assert Digits(s) == [1];
    assert TryParsePair(s[0], s[1]) == Some(-1);
    assert DartFromHex(s).value == [255];
  }
}

/** Timestamps as eight big-endian bytes, and as decimal text in the replay token. */
module Timestamps {
  import opened Hex

  const TWO_62: int := 0x4000_0000_0000_0000
  const TWO_63: int := 0x8000_0000_0000_0000
  const TWO_64: int := 0x1_0000_0000_0000_0000

  predicate IsInt64(t: int) { -TWO_63 <= t < TWO_63 }

  type int64 = t: int | IsInt64(t)

  type uint64 = n: int | 0 <= n < TWO_64

  function Pow256(k: nat): (p: nat)
    ensures p > 0
  {
    if k == 0 then 1 else 256 * Pow256(k - 1)
  }

  /** The k low base-256 digits of n, most significant first. */
  function BigEndian(n: int, k: nat): (bs: seq<byte>)
    ensures |bs| == k
    decreases k
  {
    if k == 0 then [] else BigEndian(n / 256, k - 1) + [n % 256]
  }

  function FromBigEndian(bs: seq<byte>): nat {
    if bs == [] then 0 else 256 * FromBigEndian(bs[..|bs| - 1]) + bs[|bs| - 1]
  }

  /** The number that hex digits write. */
  function HexNumber(s: string): nat
    requires AllDigits(s)
  {
    if s == "" then 0 else 16 * HexNumber(s[..|s| - 1]) + Value(s[|s| - 1]).value
  }

  /** Hex is base 16: the decoded bytes are the number that the digits write, in base 256. */
  lemma {:induction false} HexIsBase16(s: string)
    requires |s| % 2 == 0 && AllDigits(s)
    ensures Decode(s).Ok? && FromBigEndian(Decode(s).value) == HexNumber(s)
  {
    StrictAcceptsExactly(s);
    if s != "" {
      var n := |s| - 2;
      HexIsBase16(s[..n]);
      var front, a, b := Decode(s[..n]).value, Value(s[n]).value, Value(s[n + 1]).value;
      assert Decode(s).value == front + [Byte(a, b)];
      assert (front + [Byte(a, b)])[..|front|] == front;
      assert s[..n + 1][..n] == s[..n];
      assert HexNumber(s[..n + 1]) == 16 * HexNumber(s[..n]) + a;
    }
  }

  /** The number that a list of hex digits writes. */
  function DigitsNumber(ds: seq<nibble>): nat {
    if ds == [] then 0 else 16 * DigitsNumber(ds[..|ds| - 1]) + ds[|ds| - 1]
  }

  /** Qt reads the digits it finds as one number too, in as many bytes as that many digits need. */
  lemma {:induction false} QtIsBase16(ds: seq<nibble>)
    ensures |Pack(ds)| == (|ds| + 1) / 2 && FromBigEndian(Pack(ds)) == DigitsNumber(ds)
  {
    if |ds| == 1 {
      NumberAppend([], ds[0]);
      BytesAppend([], ds[0]);
      assert ds == [] + [ds[0]];
    } else if |ds| > 1 {
      var n := |ds| - 2;
      QtIsBase16(ds[..n]);
      BytesAppend(Pack(ds[..n]), Byte(ds[n], ds[n + 1]));
      NumberAppend(ds[..n], ds[n]);
      NumberAppend(ds[..n] + [ds[n]], ds[n + 1]);
      assert ds == ds[..n] + [ds[n]] + [ds[n + 1]];
    }
  }

  lemma NumberAppend(ds: seq<nibble>, d: nibble)
    ensures DigitsNumber(ds + [d]) == 16 * DigitsNumber(ds) + d
  {
    assert (ds + [d])[..|ds|] == ds;
  }

  lemma BytesAppend(bs: seq<byte>, b: byte)
    ensures FromBigEndian(bs + [b]) == 256 * FromBigEndian(bs) + b
  {
    assert (bs + [b])[..|bs|] == bs;
  }

  lemma Distribute(p: int, a: int, b: int)
    ensures p * (256 * a + b) == (256 * p) * a + p * b
  {}

  lemma SmallProduct(p: int, b: int)
    requires p > 0 && 0 <= b <= 255
    ensures 0 <= p * b <= 255 * p
  {}

  lemma DivTwice(n: int, p: nat)
    requires p > 0
    ensures n / p / 256 == n / (256 * p)
  {
    var q, r := n / p, n % p;
    var a, b := q / 256, q % 256;
    Distribute(p, a, b);
    SmallProduct(p, b);
    QuotientIs(n, 256 * p, a, p * b + r);
  }

  lemma MultipleIsFar(d: int, k: int)
    requires d > 0 && k != 0
    ensures d * k >= d || d * k <= -d
  {
    if k >= 1 { assert d * k >= d; } else { assert d * k <= -d; }
  }

  lemma QuotientIs(n: int, d: int, q: int, r: int)
    requires d > 0 && 0 <= r < d && n == d * q + r
    ensures n / d == q && n % d == r
  {
    var q', r' := n / d, n % d;
    assert d * (q - q') == r' - r;
    if q != q' { MultipleIsFar(d, q - q'); }
  }

  lemma {:induction false} BigEndianDecodes(n: int, k: nat)
    ensures FromBigEndian(BigEndian(n, k)) == n % Pow256(k)
    decreases k
  {
    if k > 0 {
      BigEndianDecodes(n / 256, k - 1);
      assert BigEndian(n, k)[..k - 1] == BigEndian(n / 256, k - 1);
      ModTwice(n, Pow256(k - 1));
    }
  }

  lemma ModTwice(n: int, p: nat)
    requires p > 0
    ensures n % (256 * p) == 256 * (n / 256 % p) + n % 256
  {
    var m := n / 256;
    var q, r := m / p, m % p;
    assert 256 * (p * q) == (256 * p) * q;
    QuotientIs(n, 256 * p, q, 256 * r + n % 256);
  }

  lemma Pow256Eight()
    ensures Pow256(8) == TWO_64
  {
    assert Pow256(2) == 0x1_0000;
    assert Pow256(4) == 0x1_0000_0000;
    assert Pow256(6) == 0x1_0000_0000_0000;
  }

  /** The desktop's loop: one arithmetic shift and mask per byte, high byte first. */
  method TimestampBytes(timestamp: int) returns (result: seq<byte>)
    requires IsInt64(timestamp)
    ensures result == BigEndian(timestamp, 8)
  {
    result := [];
    var shift := 7;
    while shift >= 0
      invariant -1 <= shift <= 7
      invariant result == BigEndian(timestamp / Pow256(shift + 1), 7 - shift)
    {
      DivTwice(timestamp, Pow256(shift));
      result := result + [timestamp / Pow256(shift) % 256];
      shift := shift - 1;
    }
  }

  /** The eight bytes are the two's complement of the timestamp, so every 64-bit timestamp is
      recovered from them. The daemon and the phone call their libraries' big-endian encoders, which are
      BigEndian by definition here; so on 0..2^63-1 the loop above agrees with them. */
  lemma TimestampBytesMeaning(timestamp: int)
    requires IsInt64(timestamp)
    ensures FromBigEndian(BigEndian(timestamp, 8)) == timestamp % TWO_64
    ensures timestamp ==
            if FromBigEndian(BigEndian(timestamp, 8)) < TWO_63 then FromBigEndian(BigEndian(timestamp, 8))
            else FromBigEndian(BigEndian(timestamp, 8)) - TWO_64
  {
    BigEndianDecodes(timestamp, 8);
    Pow256Eight();
    if timestamp >= 0 { QuotientIs(timestamp, TWO_64, 0, timestamp); }
    else { QuotientIs(timestamp, TWO_64, -1, timestamp + TWO_64); }
  }

  /** The signed payload, nonce then eight bytes, determines the nonce and the timestamp. */
  lemma PayloadInjective(n1: seq<byte>, t1: int, n2: seq<byte>, t2: int)
    requires IsInt64(t1) && IsInt64(t2)
    requires n1 + BigEndian(t1, 8) == n2 + BigEndian(t2, 8)
    ensures n1 == n2 && t1 == t2
  {
    var m := n1 + BigEndian(t1, 8);
    assert |n1| == |n2|;
    assert n1 == m[..|n1|] && BigEndian(t1, 8) == m[|n1|..];
    assert n2 == m[..|n1|] && BigEndian(t2, 8) == m[|n1|..];
    TimestampBytesMeaning(t1);
    TimestampBytesMeaning(t2);
  }

  /** The same for the daemon's unsigned timestamps. */
  lemma UnsignedPayloadInjective(n1: seq<byte>, t1: nat, n2: seq<byte>, t2: nat)
    requires t1 < TWO_64 && t2 < TWO_64
    requires n1 + BigEndian(t1, 8) == n2 + BigEndian(t2, 8)
    ensures n1 == n2 && t1 == t2
  {
    var m := n1 + BigEndian(t1, 8);
    assert |n1| == |n2|;
    assert n1 == m[..|n1|] && BigEndian(t1, 8) == m[|n1|..];
    assert n2 == m[..|n1|] && BigEndian(t2, 8) == m[|n1|..];
    BigEndianDecodes(t1, 8);
    BigEndianDecodes(t2, 8);
    Pow256Eight();
    QuotientIs(t1, TWO_64, 0, t1);
    QuotientIs(t2, TWO_64, 0, t2);
  }

  // ---- Decimal text and the replay token ----

  const MINUS: byte := 45
  const ZERO: byte := 48

  function DecimalNat(n: nat): (s: seq<byte>)
    ensures s != [] && forall i :: 0 <= i < |s| ==> ZERO <= s[i] <= ZERO + 9
  {
    if n < 10 then [ZERO + n] else DecimalNat(n / 10) + [ZERO + n % 10]
  }

  function Decimal(t: int): (s: seq<byte>)
    ensures s != []
  {
    if t < 0 then [MINUS] + DecimalNat(-t) else DecimalNat(t)
  }

  function Token(nonce: seq<byte>, timestamp: int): seq<byte> {
    nonce + Decimal(timestamp)
  }

  function FromDecimal(s: seq<byte>): int {
    if s == [] then 0 else 10 * FromDecimal(s[..|s| - 1]) + (s[|s| - 1] - ZERO)
  }

  lemma {:induction false} DecimalNatParses(n: nat)
    ensures FromDecimal(DecimalNat(n)) == n
  {
    if n >= 10 {
      DecimalNatParses(n / 10);
      assert DecimalNat(n)[..|DecimalNat(n)| - 1] == DecimalNat(n / 10);
    } else {
      assert DecimalNat(n)[..0] == [];
    }
  }

  /** Only negative numbers begin with the sign, and what follows it is the absolute value. */
  lemma DecimalParses(t: int)
    ensures t < 0 <==> Decimal(t)[0] == MINUS
    ensures t == if Decimal(t)[0] == MINUS then -FromDecimal(Decimal(t)[1..]) else FromDecimal(Decimal(t))
  {
    if t < 0 {
      DecimalNatParses(-t);
      assert Decimal(t)[1..] == DecimalNat(-t);
    } else {
      DecimalNatParses(t);
    }
  }

  lemma DecimalInjective(t1: int, t2: int)
    requires Decimal(t1) == Decimal(t2)
    ensures t1 == t2
  {
    DecimalParses(t1);
    DecimalParses(t2);
  }

  lemma SplitsDiffer(n1: seq<byte>, d1: seq<byte>, n2: seq<byte>, d2: seq<byte>)
    requires |n1| <= |n2|
    ensures n1 + d1 == n2 + d2 <==> n1 <= n2 && d1 == n2[|n1|..] + d2
  {
    if n1 + d1 == n2 + d2 {
      var m := n1 + d1;
      assert n1 == m[..|n1|] && n2 == m[..|n2|] && n2[..|n1|] == n1;
      assert d1 == m[|n1|..] == n2[|n1|..] + d2;
    }
    if n1 <= n2 && d1 == n2[|n1|..] + d2 {
      assert n2 == n1 + n2[|n1|..];
      assert n1 + (n2[|n1|..] + d2) == (n1 + n2[|n1|..]) + d2;
    }
  }

  /** Exactly which pairs share a replay token: the longer nonce is the shorter one followed by
      the leading characters of the other timestamp. */
  lemma TokenCollision(n1: seq<byte>, t1: int, n2: seq<byte>, t2: int)
    requires |n1| <= |n2|
    ensures Token(n1, t1) == Token(n2, t2) <==> n1 <= n2 && Decimal(t1) == n2[|n1|..] + Decimal(t2)
  {
    SplitsDiffer(n1, Decimal(t1), n2, Decimal(t2));
  }

  /** With nonces of equal length, or timestamps that print equally long, equal tokens are equal pairs. */
  lemma TokenInjective(n1: seq<byte>, t1: int, n2: seq<byte>, t2: int)
    requires Token(n1, t1) == Token(n2, t2)
    requires |n1| == |n2| || |Decimal(t1)| == |Decimal(t2)|
    ensures n1 == n2 && t1 == t2
  {
    SplitsDiffer(n1, Decimal(t1), n2, Decimal(t2));
    assert n2[|n1|..] + Decimal(t2) == Decimal(t2);
    DecimalInjective(t1, t2);
  }

  /** Nonces of different lengths can share a token. */
  lemma TokenCollisionExists()
    ensures Token([7], 12) == Token([7, ZERO + 1], 2)
  {
    assert DecimalNat(12) == DecimalNat(1) + [ZERO + 2];
  }
}

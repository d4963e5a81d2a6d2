/** The proof file: base64 (section 4 of RFC 4648) and the packing of legacy field-element proofs into it. */
module ProofBytes {
  import opened Felts
  import opened Signing

  datatype ProofError = Base64Decode(text: string) | InvalidFelt(text: string)

  // ------------------------------------------------------------------------
  // Base64
  // ------------------------------------------------------------------------

  type Sextet = n: nat | n < 64

  const PAD: char := '='

  function Digit64(d: Sextet): char {
    if d < 26 then 'A' + d as char
    else if d < 52 then 'a' + (d - 26) as char
    else if d < 62 then '0' + (d - 52) as char
    else if d == 62 then '+'
    else '/'
  }

  function Value64(c: char): (d: Option<nat>)
    ensures d.Some? ==> d.value < 64
  {
    if 'A' <= c <= 'Z' then Some((c - 'A') as nat)
    else if 'a' <= c <= 'z' then Some((c - 'a') as nat + 26)
    else if '0' <= c <= '9' then Some((c - '0') as nat + 52)
    else if c == '+' then Some(62)
    else if c == '/' then Some(63)
    else None
  }

  /** Three bytes make four digits; one or two left over make two or three digits and padding. */
  function Encode(bytes: seq<Byte>): string {
    if |bytes| == 0 then ""
    else if |bytes| == 1 then
      [Digit64(bytes[0] / 4), Digit64(bytes[0] % 4 * 16), PAD, PAD]
    else if |bytes| == 2 then
      [Digit64(bytes[0] / 4), Digit64(bytes[0] % 4 * 16 + bytes[1] / 16), Digit64(bytes[1] % 16 * 4), PAD]
    else
      [Digit64(bytes[0] / 4), Digit64(bytes[0] % 4 * 16 + bytes[1] / 16),
       Digit64(bytes[1] % 16 * 4 + bytes[2] / 64), Digit64(bytes[2] % 64)] + Encode(bytes[3..])
  }

  /** Four digits without padding. */
  function DecodeFull(quad: string): Option<seq<Byte>>
    requires |quad| == 4
  {
    match (Value64(quad[0]), Value64(quad[1]), Value64(quad[2]), Value64(quad[3]))
    case (Some(p), Some(q), Some(r), Some(s)) => Some([p * 4 + q / 16, q % 16 * 16 + r / 4, r % 4 * 64 + s])
    case _ => None
  }

  /** The last four characters: padding must be complete and the bits that carry no data must be zero. */
  function DecodeLast(quad: string): Option<seq<Byte>>
    requires |quad| == 4
  {
    if quad[2] == PAD && quad[3] == PAD then
      match (Value64(quad[0]), Value64(quad[1]))
      case (Some(p), Some(q)) => if q % 16 == 0 then Some([p * 4 + q / 16]) else None
      case _ => None
    else if quad[3] == PAD then
      match (Value64(quad[0]), Value64(quad[1]), Value64(quad[2]))
      case (Some(p), Some(q), Some(r)) => if r % 4 == 0 then Some([p * 4 + q / 16, q % 16 * 16 + r / 4]) else None
      case _ => None
    else DecodeFull(quad)
  }

  /** The strict decoder of the standard engine. */
  function Decode(s: string): Option<seq<Byte>> {
    if |s| == 0 then Some([])
    else if |s| < 4 then None
    else if |s| == 4 then DecodeLast(s)
    else
      match (DecodeFull(s[..4]), Decode(s[4..]))
      case (Some(head), Some(tail)) => Some(head + tail)
      case _ => None
  }

  /** The test vectors of section 10 of RFC 4648, up to three bytes. */
  lemma TestVectors()
    ensures Encode([]) == "" && Encode([0x66]) == "Zg==" && Encode([0x66, 0x6f]) == "Zm8="
    ensures Encode([0x66, 0x6f, 0x6f]) == "Zm9v"
  {
    assert [0x66, 0x6f, 0x6f][3..] == [];
  }

  lemma DigitsMatch(c: char, d: Sextet)
    ensures Value64(Digit64(d)) == Some(d) && Digit64(d) != PAD
    ensures Value64(c) == Some(d) ==> c == Digit64(d)
  {
    if 26 <= d < 52 {
      assert Digit64(d) as nat == 'a' as nat + (d - 26);
    } else if d < 26 {
      assert Digit64(d) as nat == 'A' as nat + d;
    }
  }

  lemma DigitValues()
    ensures forall d: Sextet :: Value64(Digit64(d)) == Some(d) && Digit64(d) != PAD
  {
    forall d: Sextet
      ensures Value64(Digit64(d)) == Some(d) && Digit64(d) != PAD
    {
      DigitsMatch(PAD, d);
    }
  }

  lemma DecodeOfOne(b: Byte)
    ensures |Encode([b])| == 4 && DecodeLast(Encode([b])) == Some([b])
  {
    DigitValues();
    hide Digit64;
    hide Value64;
    var p, q: Sextet := b / 4, b % 4 * 16;
    assert Encode([b]) == [Digit64(p), Digit64(q), PAD, PAD];
  }

  lemma DecodeOfTwo(b: Byte, c: Byte)
    ensures |Encode([b, c])| == 4 && DecodeLast(Encode([b, c])) == Some([b, c])
  {
    DigitValues();
    hide Digit64;
    hide Value64;
    var p, q, r: Sextet := b / 4, b % 4 * 16 + c / 16, c % 16 * 4;
    assert Encode([b, c]) == [Digit64(p), Digit64(q), Digit64(r), PAD];
  }

  lemma DecodeOfThree(bytes: seq<Byte>)
    requires |bytes| == 3
    ensures |Encode(bytes)| == 4 && DecodeLast(Encode(bytes)) == Some(bytes)
  {
    DigitValues();
    DecodeOfFull(bytes);
    hide Digit64;
    hide Value64;
    hide DecodeFull;
    var quad := Encode(bytes);
    assert Encode(bytes[3..]) == "";
    assert quad[..4] == quad && bytes[..3] == bytes;
    assert quad[3] == Digit64(bytes[2] % 64);
  }

  lemma DecodeOfFull(bytes: seq<Byte>)
    requires |bytes| >= 3
    ensures |Encode(bytes)| >= 4 && DecodeFull(Encode(bytes)[..4]) == Some(bytes[..3])
  {
    DigitValues();
    hide Digit64;
    hide Value64;
    var p, q: Sextet := bytes[0] / 4, bytes[0] % 4 * 16 + bytes[1] / 16;
    var r, s: Sextet := bytes[1] % 16 * 4 + bytes[2] / 64, bytes[2] % 64;
    var quad := Encode(bytes)[..4];
    assert quad == [Digit64(p), Digit64(q), Digit64(r), Digit64(s)];
    hide Encode;
    BytesRead(bytes, p, q, r, s);
    assert bytes[..3] == [bytes[0], bytes[1], bytes[2]];
  }

  /** Decoding undoes encoding, on every byte string. */
  lemma {:induction false} DecodeEncode(bytes: seq<Byte>)
    ensures Decode(Encode(bytes)) == Some(bytes)
  {
    hide DecodeLast;
    hide DecodeFull;
    hide Digit64;
    if |bytes| == 1 {
      DecodeOfOne(bytes[0]);
      assert bytes == [bytes[0]];
    } else if |bytes| == 2 {
      DecodeOfTwo(bytes[0], bytes[1]);
      assert bytes == [bytes[0], bytes[1]];
    } else if |bytes| == 3 {
      DecodeOfThree(bytes);
    } else if |bytes| > 3 {
      DecodeEncode(bytes[3..]);
      DecodeOfFull(bytes);
      var s := Encode(bytes);
      assert s[4..] == Encode(bytes[3..]);
      assert bytes == bytes[..3] + bytes[3..];
    }
  }

  /** Encoding undoes decoding: the decoder accepts nothing but what the encoder writes. */
  lemma {:induction false} EncodeDecode(s: string)
    requires Decode(s).Some?
    ensures Encode(Decode(s).value) == s
  {
    hide DecodeLast;
    hide DecodeFull;
    hide Encode;
    if |s| == 0 {
      EncodeNothing();
    } else if |s| == 4 {
      EncodeLast(s);
    } else if |s| > 4 {
      EncodeDecode(s[4..]);
      EncodeFull(s[..4], Decode(s[4..]).value);
      assert s == s[..4] + s[4..];
    }
  }

  lemma EncodeFull(quad: string, tail: seq<Byte>)
    requires |quad| == 4 && DecodeFull(quad).Some?
    ensures Encode(DecodeFull(quad).value + tail) == quad + Encode(tail)
  {
    var bytes := DecodeFull(quad).value;
    var p, q, r, s := Value64(quad[0]).value, Value64(quad[1]).value, Value64(quad[2]).value, Value64(quad[3]).value;
    DigitsRead(quad);
    SextetsRead(p, q, r, s, bytes);
    hide Digit64;
    hide Value64;
    hide DecodeFull;
    assert (bytes + tail)[3..] == tail;
    assert (bytes + tail)[0] == bytes[0] && (bytes + tail)[1] == bytes[1] && (bytes + tail)[2] == bytes[2];
    assert quad == [Digit64(p), Digit64(q), Digit64(r), Digit64(s)];
  }

  lemma BytesRead(bytes: seq<Byte>, p: Sextet, q: Sextet, r: Sextet, s: Sextet)
    requires |bytes| >= 3
    requires p == bytes[0] / 4 && q == bytes[0] % 4 * 16 + bytes[1] / 16
    requires r == bytes[1] % 16 * 4 + bytes[2] / 64 && s == bytes[2] % 64
    ensures [p * 4 + q / 16, q % 16 * 16 + r / 4, r % 4 * 64 + s] == [bytes[0], bytes[1], bytes[2]]
  {
  }

  lemma SextetsRead(p: Sextet, q: Sextet, r: Sextet, s: Sextet, bytes: seq<Byte>)
    requires bytes == [p * 4 + q / 16, q % 16 * 16 + r / 4, r % 4 * 64 + s]
    ensures bytes[0] / 4 == p && bytes[0] % 4 * 16 + bytes[1] / 16 == q
    ensures bytes[1] % 16 * 4 + bytes[2] / 64 == r && bytes[2] % 64 == s
  {
  }

  lemma DigitsRead(quad: string)
    ensures forall i :: 0 <= i < |quad| && Value64(quad[i]).Some? ==> Digit64(Value64(quad[i]).value) == quad[i]
  {
    forall i | 0 <= i < |quad| && Value64(quad[i]).Some?
      ensures quad[i] == Digit64(Value64(quad[i]).value)
    {
      DigitsMatch(quad[i], Value64(quad[i]).value);
    }
  }

  lemma EncodeLast(quad: string)
    requires |quad| == 4 && DecodeLast(quad).Some?
    ensures Encode(DecodeLast(quad).value) == quad
  {
    if quad[3] != PAD {
      hide Encode;
      hide DecodeFull;
      EncodeFull(quad, []);
      EncodeNothing();
      assert DecodeFull(quad).value + [] == DecodeFull(quad).value;
    } else {
      EncodePadded(quad);
    }
  }

  lemma EncodedOne(p: Sextet, q: Sextet)
    requires q % 16 == 0
    ensures Encode([p * 4 + q / 16]) == [Digit64(p), Digit64(q), PAD, PAD]
  {
    hide Digit64;
  }

  lemma EncodedTwo(p: Sextet, q: Sextet, r: Sextet)
    requires r % 4 == 0
    ensures Encode([p * 4 + q / 16, q % 16 * 16 + r / 4]) == [Digit64(p), Digit64(q), Digit64(r), PAD]
  {
    hide Digit64;
    SextetsRead(p, q, r, 0, [p * 4 + q / 16, q % 16 * 16 + r / 4, r % 4 * 64 + 0]);
  }

  lemma EncodePadded(quad: string)
    requires |quad| == 4 && quad[3] == PAD && DecodeLast(quad).Some?
    ensures Encode(DecodeLast(quad).value) == quad
  {
    DigitsRead(quad);
    assert Value64(PAD) == None;
    hide Digit64;
    hide Value64;
    hide Encode;
    var p, q := Value64(quad[0]).value, Value64(quad[1]).value;
    if quad[2] == PAD {
      EncodedOne(p, q);
      assert DecodeLast(quad) == Some([p * 4 + q / 16]);
      assert quad == [Digit64(p), Digit64(q), PAD, PAD];
    } else {
      var r := Value64(quad[2]).value;
      EncodedTwo(p, q, r);
      assert DecodeLast(quad) == Some([p * 4 + q / 16, q % 16 * 16 + r / 4]);
      hide DecodeLast;
      assert quad == [Digit64(p), Digit64(q), Digit64(r), PAD];
    }
  }

  lemma EncodeNothing()
    ensures Encode([]) == ""
  {
  }

  // ------------------------------------------------------------------------
  // Reading and writing a proof
  // ------------------------------------------------------------------------

  /** The code points with Unicode's White_Space property. */
  predicate IsWhitespace(c: char) {
    '\t' <= c <= '\r' || c == ' ' || c == '\U{85}' || c == '\U{A0}' || c == '\U{1680}'
    || '\U{2000}' <= c <= '\U{200A}' || c == '\U{2028}' || c == '\U{2029}' || c == '\U{202F}'
    || c == '\U{205F}' || c == '\U{3000}'
  }

  /** The same by number: U+0009 to U+000D, space, U+0085, U+00A0, U+1680, U+2000 to U+200A, U+2028, U+2029, U+202F, U+205F
      and U+3000. */
  lemma WhitespaceByNumber(c: char)
    ensures var n := c as int;
            IsWhitespace(c)
            <==> 9 <= n <= 13 || 0x2000 <= n <= 0x200a
                 || n in {0x20, 0x85, 0xa0, 0x1680, 0x2028, 0x2029, 0x202f, 0x205f, 0x3000}
  {
  }

  predicate Blank(s: string) {
    forall i :: 0 <= i < |s| ==> IsWhitespace(s[i])
  }

  function TrimStart(s: string): string {
    if s != "" && IsWhitespace(s[0]) then TrimStart(s[1..]) else s
  }

  function TrimEnd(s: string): string {
    if s != "" && IsWhitespace(s[|s| - 1]) then TrimEnd(s[..|s| - 1]) else s
  }

  function Trim(s: string): string {
    TrimEnd(TrimStart(s))
  }

  function EncodeProofBase64(bytes: seq<Byte>): string {
    Encode(bytes)
  }

  function DecodeProofBase64(b64: string): Result<seq<Byte>, ProofError> {
    match Decode(Trim(b64))
    case Some(bytes) => Ok(bytes)
    case None => Err(Base64Decode(b64))
  }

  lemma {:induction false} TrimStartSplits(s: string) returns (left: string)
    ensures s == left + TrimStart(s) && Blank(left)
  {
    left := "";
    if s != "" && IsWhitespace(s[0]) {
      var rest := TrimStartSplits(s[1..]);
      left := [s[0]] + rest;
    }
  }

  lemma {:induction false} TrimEndSplits(s: string) returns (right: string)
    ensures s == TrimEnd(s) + right && Blank(right)
  {
    right := "";
    if s != "" && IsWhitespace(s[|s| - 1]) {
      var rest := TrimEndSplits(s[..|s| - 1]);
      right := rest + [s[|s| - 1]];
    }
  }

  lemma {:induction false} TrimStartDrops(left: string, s: string)
    requires Blank(left)
    ensures TrimStart(left + s) == TrimStart(s)
  {
    if left == "" {
      assert left + s == s;
    } else {
      TrimStartDrops(left[1..], s);
      assert (left + s)[1..] == left[1..] + s;
    }
  }

  lemma {:induction false} TrimEndDrops(s: string, right: string)
    requires Blank(right)
    ensures TrimEnd(s + right) == TrimEnd(s)
  {
    if right == "" {
      assert s + right == s;
    } else {
      TrimEndDrops(s, right[..|right| - 1]);
      assert (s + right)[..|s + right| - 1] == s + right[..|right| - 1];
    }
  }

  lemma DigitsAreNoWhitespace()
    ensures forall d: Sextet :: !IsWhitespace(Digit64(d))
    ensures !IsWhitespace(PAD)
  {
  }

  lemma {:induction false} EncodeHasNoWhitespace(bytes: seq<Byte>)
    ensures forall i :: 0 <= i < |Encode(bytes)| ==> !IsWhitespace(Encode(bytes)[i])
  {
    DigitsAreNoWhitespace();
    hide Digit64;
    hide IsWhitespace;
    if |bytes| < 3 {
    } else {
      EncodeHasNoWhitespace(bytes[3..]);
    }
  }

  ghost predicate Padded(s: string, left: string, core: string, right: string) {
    s == left + core + right && Blank(left) && Blank(right)
  }

  lemma TrimPadded(b64: string, left: string, core: string, right: string)
    requires Padded(b64, left, core, right)
    requires forall i :: 0 <= i < |core| ==> !IsWhitespace(core[i])
    ensures Trim(b64) == core
  {
    assert b64 == left + (core + right);
    TrimStartDrops(left, core + right);
    if core == "" {
      assert core + right == right + "";
      TrimStartDrops(right, "");
    } else {
      assert TrimStart(core + right) == core + right;
      TrimEndDrops(core, right);
    }
  }

  /** A proof text is accepted exactly when it is an encoding between blanks, and it then gives the encoded bytes. */
  lemma {:induction false} DecodeProofExactly(b64: string, bytes: seq<Byte>)
    ensures DecodeProofBase64(b64) == Ok(bytes)
            <==> exists left, right :: Padded(b64, left, EncodeProofBase64(bytes), right)
  {
    hide Encode;
    hide Decode;
    if DecodeProofBase64(b64) == Ok(bytes) {
      var core := Trim(b64);
      EncodeDecode(core);
      assert Decode(core) == Some(bytes);
      assert core == EncodeProofBase64(bytes);
      var left := TrimStartSplits(b64);
      var right := TrimEndSplits(TrimStart(b64));
      assert left + (Trim(b64) + right) == left + Trim(b64) + right;
      assert Padded(b64, left, EncodeProofBase64(bytes), right);
    }
    if exists left, right :: Padded(b64, left, EncodeProofBase64(bytes), right) {
      var left, right :| Padded(b64, left, EncodeProofBase64(bytes), right);
      EncodeHasNoWhitespace(bytes);
      DecodeEncode(bytes);
      TrimPadded(b64, left, Encode(bytes), right);
    }
  }

  // ------------------------------------------------------------------------
  // Packing field elements
  // ------------------------------------------------------------------------

  /** The low k bytes of a number, most significant first. */
  function BytesBe(n: nat, k: nat): (bytes: seq<Byte>)
    ensures |bytes| == k
  {
    if k == 0 then [] else BytesBe(n / 256, k - 1) + [n % 256]
  }

  lemma ModStep(n: nat, m: nat)
    requires m > 0
    ensures n % (256 * m) == 256 * (n / 256 % m) + n % 256
  {
    var high, low := n / 256, n % 256;
    var q, rest := high / m, high % m;
    assert high == m * q + rest;
    MulAssociative(256, m, q);
    assert n == 256 * (m * q) + 256 * rest + low;
    DivModUnique(n, 256 * m, q, 256 * rest + low);
  }

  lemma {:induction false} NatOfBytes(n: nat, k: nat)
    ensures BytesValue(BytesBe(n, k)) == n % Pow(256, k)
  {
    if k == 0 {
    } else {
      NatOfBytes(n / 256, k - 1);
      var bytes := BytesBe(n, k);
      assert bytes[..k - 1] == BytesBe(n / 256, k - 1);
      ModStep(n, Pow(256, k - 1));
    }
  }

  lemma {:induction false} LastBytes(n: nat, k: nat, m: nat)
    requires m <= k
    ensures BytesBe(n, k)[k - m..] == BytesBe(n, m)
  {
    if m == 0 {
    } else {
      LastBytes(n / 256, k - 1, m - 1);
    }
  }

  /** Four bytes per felt: group i writes felt i modulo 2^32. */
  ghost predicate PackedGroups(bytes: seq<Byte>, felts: seq<string>) {
    |bytes| == 4 * |felts|
    && forall i: nat :: i < |felts| ==>
      FeltFromHex(felts[i]).Some? && BytesValue(bytes[4 * i..4 * i + 4]) == FeltFromHex(felts[i]).value % 0x1_0000_0000
  }

  /** The packing of one felt through its 32-byte form and a 32-bit word. */
  function PackFelt(f: Felt): (bytes: seq<Byte>)
    ensures |bytes| == 4
  {
    BytesBe(BytesValue(BytesBe(f, 32)[28..]), 4)
  }

  lemma WordSize()
    ensures Pow(256, 4) == 0x1_0000_0000
  {
    assert Pow(256, 2) == 256 * Pow(256, 1);
  }

  lemma PackFeltMeaning(f: Felt)
    ensures BytesValue(PackFelt(f)) == f % 0x1_0000_0000
  {
    WordSize();
    hide Pow;
    hide BytesValue;
    hide BytesBe;
    LastBytes(f, 32, 4);
    NatOfBytes(f, 4);
    NatOfBytes(f % 0x1_0000_0000, 4);
  }

  lemma PackedGroupsExtend(packed: seq<Byte>, felts: seq<string>, felt: Felt)
    requires PackedGroups(packed, felts)
    ensures forall text :: FeltFromHex(text) == Some(felt) ==> PackedGroups(packed + PackFelt(felt), felts + [text])
  {
    hide FeltFromHex;
    hide PackFelt;
    var n, all := |felts|, packed + PackFelt(felt);
    PackFeltMeaning(felt);
    assert all[4 * n..4 * n + 4] == PackFelt(felt);
    forall i: nat | i < n
      ensures all[4 * i..4 * i + 4] == packed[4 * i..4 * i + 4]
    {
    }
  }

  /** Packs a legacy proof; the first text that is no felt is the error. Reading the result back gives four bytes per
      felt, the low 32 bits of each. */
  method CairoSerdeToBase64(felts: seq<string>) returns (r: Result<string, ProofError>)
    ensures r.Ok? <==> forall i :: 0 <= i < |felts| ==> FeltFromHex(felts[i]).Some?
    ensures r.Err? ==> exists i :: 0 <= i < |felts| && r.error == InvalidFelt(felts[i]) && FeltFromHex(felts[i]).None?
                                   && forall j :: 0 <= j < i ==> FeltFromHex(felts[j]).Some?
    ensures r.Ok? ==> exists bytes :: DecodeProofBase64(r.value) == Ok(bytes) && PackedGroups(bytes, felts)
  {
    hide FeltFromHex;
    hide PackFelt;
    hide Encode;
    hide Decode;
    var packed: seq<Byte> := [];
    assert PackedGroups(packed, felts[..0]);
    hide PackedGroups;
    for i := 0 to |felts|
      invariant forall j :: 0 <= j < i ==> FeltFromHex(felts[j]).Some?
      invariant PackedGroups(packed, felts[..i])
    {
      match FeltFromHex(felts[i])
      case None =>
        return Err(InvalidFelt(felts[i]));
      case Some(felt) =>
        PackedGroupsExtend(packed, felts[..i], felt);
        assert felts[..i + 1] == felts[..i] + [felts[i]];
        packed := packed + PackFelt(felt);
    }
    assert felts[..|felts|] == felts;
    r := Ok(EncodeProofBase64(packed));
    DecodeProofExactly(r.value, packed);
    assert Padded(r.value, "", EncodeProofBase64(packed), "");
  }
}

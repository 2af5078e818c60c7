/**
  The DER form of a signature, as `bitcoin_der_signature` in
  src/lindell/sign.rs builds it, and a strict reader for that form: ITU-T X.690
  sections 8.1.3 (length octets) and 8.3 (INTEGER), with the SEQUENCE of two
  INTEGERs of RFC 3279 section 2.2.3.
*/
module Der {
  import opened Arithmetic
  import opened Wrappers

  type Byte = b: nat | b < 256

  const SEQUENCE: Byte := 0x30
  const INTEGER: Byte := 0x02

  /** The weight of a byte with `n` bytes after it. */
  function Weight(n: nat): pos {
    if n == 0 then 1 else 256 * Weight(n - 1)
  }

  lemma NatProduct(a: nat, b: nat)
    ensures a * b >= 0
  {
  }

  /** The unsigned big-endian value of a byte string. */
  function Unsigned(bytes: seq<Byte>): nat {
    if bytes == [] then 0 else
      NatProduct(bytes[0], Weight(|bytes| - 1));
      bytes[0] * Weight(|bytes| - 1) + Unsigned(bytes[1..])
  }

  // --- writing ---------------------------------------------------------------

  /** The content octets for a non-empty byte string: leading zeros go, the last byte stays, and a set top
      bit is guarded by one zero. */
  function Content(bytes: seq<Byte>): seq<Byte>
    requires bytes != []
  {
    if bytes[0] == 0 && |bytes| > 1 then Content(bytes[1..])
    else if bytes[0] >= 0x80 then [0] + bytes
    else bytes
  }

  method EncodeInt(bytes: seq<Byte>) returns (v: seq<Byte>)
    requires bytes != []
    ensures v == Content(bytes)
  {
    v := [];
    var nonZero := 0;
    while nonZero < |bytes| && bytes[nonZero] == 0
      invariant nonZero <= |bytes|
      invariant forall k :: 0 <= k < nonZero ==> bytes[k] == 0
    {
      nonZero := nonZero + 1;
    }
    if nonZero == |bytes| {
      nonZero := |bytes| - 1;
    }
    var trimmed := bytes[nonZero..];
    ContentSkipsZeros(bytes, nonZero);
    if trimmed[0] >= 0x80 {
      v := v + [0];
    }
    v := v + trimmed;
  }

  lemma {:induction false} ContentSkipsZeros(bytes: seq<Byte>, n: nat)
    requires n < |bytes|
    requires forall k :: 0 <= k < n ==> bytes[k] == 0
    ensures Content(bytes) == Content(bytes[n..])
    decreases n
  {
    if n == 0 {
      assert bytes[0..] == bytes;
    } else {
      ContentSkipsZeros(bytes[1..], n - 1);
      assert bytes[1..][n - 1..] == bytes[n..];
    }
  }

  /** A length cast to one byte. */
  function LengthByte(n: nat): Byte {
    n % 256
  }

  function Field(content: seq<Byte>): seq<Byte> {
    [INTEGER, LengthByte(|content|)] + content
  }

  function Enclosed(body: seq<Byte>): seq<Byte> {
    [SEQUENCE, LengthByte(|body|)] + body
  }

  function Signature(r: seq<Byte>, s: seq<Byte>): seq<Byte>
    requires r != [] && s != []
  {
    Enclosed(Field(Content(r)) + Field(Content(s)))
  }

  method BitcoinDerSignature(r: seq<Byte>, s: seq<Byte>) returns (sig: seq<Byte>)
    requires r != [] && s != []
    ensures sig == Signature(r, s)
  {
    sig := [SEQUENCE];
    var rEnc := EncodeInt(r);
    var sEnc := EncodeInt(s);
    var totalLen := 2 + |rEnc| + 2 + |sEnc|;
    sig := sig + [totalLen % 256];
    sig := sig + [INTEGER];
    sig := sig + [|rEnc| % 256];
    sig := sig + rEnc;
    sig := sig + [INTEGER];
    sig := sig + [|sEnc| % 256];
    sig := sig + sEnc;
  }

  // --- reading ---------------------------------------------------------------

  /** X.690 section 8.3.2: the first nine bits are neither all zero nor all one. */
  predicate Minimal(content: seq<Byte>) {
    content != [] &&
    (|content| > 1 ==>
       !(content[0] == 0 && content[1] < 0x80) && !(content[0] == 0xff && content[1] >= 0x80))
  }

  /** X.690 section 8.3.3: two's complement. */
  function Signed(content: seq<Byte>): int
    requires content != []
  {
    if content[0] < 0x80 then Unsigned(content) else Unsigned(content) - Weight(|content|)
  }

  /** One INTEGER with a short-form length at the head of the input, and what follows it. */
  function ReadInteger(input: seq<Byte>): Option<(int, seq<Byte>)> {
    if |input| < 2 || input[0] != 0x02 || input[1] >= 0x80 || 2 + input[1] > |input| then None
    else
      var content := input[2..2 + input[1]];
      if Minimal(content) then Some((Signed(content), input[2 + input[1]..])) else None
  }

  function ReadPair(body: seq<Byte>): Option<(int, int)> {
    match ReadInteger(body)
    case None => None
    case Some(first) =>
      match ReadInteger(first.1)
      case None => None
      case Some(second) => if second.1 == [] then Some((first.0, second.0)) else None
  }

  /** A SEQUENCE of exactly two INTEGERs, with nothing missing and nothing left over. */
  function Read(input: seq<Byte>): Option<(int, int)> {
    if |input| < 2 || input[0] != 0x30 || input[1] >= 0x80 || 2 + input[1] != |input| then None
    else ReadPair(input[2..])
  }

  /** The value of a byte string grows by one base-256 digit per byte. */
  lemma {:induction false} UnsignedAppend(bytes: seq<Byte>, b: Byte)
    ensures Unsigned(bytes + [b]) == 256 * Unsigned(bytes) + b
  {
    if bytes == [] {
      assert bytes + [b] == [b] && [b][1..] == [];
    } else {
      UnsignedAppend(bytes[1..], b);
      assert (bytes + [b])[1..] == bytes[1..] + [b];
      ShiftDigit(bytes[0], Weight(|bytes| - 1), Unsigned(bytes[1..]), b);
    }
  }

  lemma ShiftDigit(digit: nat, weight: nat, rest: nat, b: nat)
    ensures digit * (256 * weight) + (256 * rest + b) == 256 * (digit * weight + rest) + b
  {
  }

  // --- the content octets ----------------------------------------------------

  lemma {:induction false} UnsignedBound(bytes: seq<Byte>)
    ensures Unsigned(bytes) < Weight(|bytes|)
  {
    if bytes != [] {
      UnsignedBound(bytes[1..]);
      FirstByteBound(bytes[0], Weight(|bytes| - 1), Unsigned(bytes[1..]));
    }
  }

  lemma FirstByteBound(b: Byte, power: nat, rest: nat)
    requires rest < power
    ensures b * power <= b * power + rest < (b + 1) * power <= 256 * power
  {
    NatProduct(255 - b, power);
  }

  /** The content octets keep the value, are minimal, and read back as non-negative. */
  lemma {:induction false} ContentCorrect(bytes: seq<Byte>)
    requires bytes != []
    ensures var c := Content(bytes);
      Minimal(c) && c[0] < 0x80 && Unsigned(c) == Unsigned(bytes) && 1 <= |c| <= |bytes| + 1
  {
    if bytes[0] == 0 && |bytes| > 1 {
      ContentCorrect(bytes[1..]);
    } else if bytes[0] >= 0x80 {
      assert ([0] + bytes)[1..] == bytes;
    }
  }

  lemma MinimalBounds(c: seq<Byte>)
    requires Minimal(c) && c[0] < 0x80
    ensures Unsigned(c) < 128 * Weight(|c| - 1)
    ensures |c| > 1 ==> 128 * Weight(|c| - 2) <= Unsigned(c)
  {
    UnsignedBound(c[1..]);
    var power := Weight(|c| - 1);
    FirstByteBound(c[0], power, Unsigned(c[1..]));
    TopByte(c[0], power);
    if |c| > 1 {
      var low := Weight(|c| - 2);
      SecondByte(c[0], c[1], low);
      assert c[1..][1..] == c[2..];
      assert Unsigned(c[1..]) == c[1] * low + Unsigned(c[2..]);
    }
  }

  lemma TopByte(b: nat, power: nat)
    requires b < 128
    ensures (b + 1) * power <= 128 * power
  {
    NatProduct(127 - b, power);
  }

  lemma SecondByte(a: Byte, b: Byte, low: nat)
    requires a != 0 || b >= 128
    ensures a * (256 * low) + b * low >= 128 * low
  {
    assert a * (256 * low) + b * low == (256 * a + b) * low;
    NatProduct(256 * a + b - 128, low);
  }

  lemma {:induction false} SameLengthSameValue(c: seq<Byte>, d: seq<Byte>)
    requires |c| == |d| && Unsigned(c) == Unsigned(d)
    ensures c == d
  {
    if c != [] {
      var power := Weight(|c| - 1);
      UnsignedBound(c[1..]);
      UnsignedBound(d[1..]);
      if c[0] < d[0] {
        FirstByteDecides(c[0], d[0], power, Unsigned(c[1..]), Unsigned(d[1..]));
      } else if d[0] < c[0] {
        FirstByteDecides(d[0], c[0], power, Unsigned(d[1..]), Unsigned(c[1..]));
      }
      SameLengthSameValue(c[1..], d[1..]);
      assert c == [c[0]] + c[1..];
    }
  }

  lemma FirstByteDecides(a: Byte, b: Byte, power: nat, low: nat, other: nat)
    requires a < b && low < power
    ensures a * power + low < b * power + other
  {
    NatProduct(b - a - 1, power);
  }

  /** Minimal non-negative content is unique: a value has one such encoding. */
  lemma MinimalIsUnique(c: seq<Byte>, d: seq<Byte>)
    requires Minimal(c) && c[0] < 0x80 && Minimal(d) && d[0] < 0x80
    requires Unsigned(c) == Unsigned(d)
    ensures c == d
  {
    MinimalBounds(c);
    MinimalBounds(d);
    if |c| < |d| {
      WeightMonotone(|c| - 1, |d| - 2);
    } else if |d| < |c| {
      WeightMonotone(|d| - 1, |c| - 2);
    } else {
      SameLengthSameValue(c, d);
    }
  }

  lemma {:induction false} WeightMonotone(low: nat, high: nat)
    requires low <= high
    ensures Weight(low) <= Weight(high)
    decreases high
  {
    if low < high {
      WeightMonotone(low, high - 1);
    }
  }

  lemma SignedIsNegative(content: seq<Byte>)
    requires content != []
    ensures Signed(content) >= 0 <==> content[0] < 0x80
  {
    UnsignedBound(content);
  }

  // --- whole signatures ------------------------------------------------------

  lemma ReadsField(content: seq<Byte>, rest: seq<Byte>)
    requires Minimal(content) && |content| < 0x80
    ensures ReadInteger(Field(content) + rest) == Some((Signed(content), rest))
  {
    var input := Field(content) + rest;
    assert input[2..2 + |content|] == content;
    assert input[2 + |content|..] == rest;
  }

  lemma FieldOf(input: seq<Byte>) returns (content: seq<Byte>)
    requires ReadInteger(input).Some?
    ensures Minimal(content) && ReadInteger(input).value.0 == Signed(content)
    ensures input == Field(content) + ReadInteger(input).value.1
  {
    content := input[2..2 + input[1]];
    assert input == [input[0], input[1]] + content + input[2 + input[1]..];
  }

  lemma ReadsPair(a: seq<Byte>, b: seq<Byte>)
    requires Minimal(a) && |a| < 0x80 && Minimal(b) && |b| < 0x80
    ensures ReadPair(Field(a) + Field(b)) == Some((Signed(a), Signed(b)))
  {
    ReadsField(a, Field(b));
    assert Field(b) + [] == Field(b);
    ReadsField(b, []);
  }

  lemma PairOf(body: seq<Byte>) returns (a: seq<Byte>, b: seq<Byte>)
    requires ReadPair(body).Some?
    ensures Minimal(a) && Minimal(b)
    ensures ReadPair(body).value == (Signed(a), Signed(b))
    ensures body == Field(a) + Field(b)
  {
    a := FieldOf(body);
    b := FieldOf(ReadInteger(body).value.1);
    assert Field(b) + [] == Field(b);
  }

  lemma ReadsEnclosed(body: seq<Byte>)
    ensures Read(Enclosed(body)) == if |body| < 0x80 then ReadPair(body) else None
  {
    EnclosedTail(body);
  }

  lemma EnclosedTail(body: seq<Byte>)
    ensures Enclosed(body)[2..] == body && |Enclosed(body)| == 2 + |body|
    ensures Enclosed(body)[0] == 0x30 && Enclosed(body)[1] == |body| % 256
  {
  }

  lemma EnclosedOf(input: seq<Byte>)
    requires Read(input).Some?
    ensures input == Enclosed(input[2..]) && Read(input) == ReadPair(input[2..])
  {
    assert input == [input[0], input[1]] + input[2..];
  }

  /** The reader gets both integers back exactly when the whole content fits a short-form length. */
  lemma DerRoundTripIff(r: seq<Byte>, s: seq<Byte>)
    requires r != [] && s != []
    ensures Read(Signature(r, s)) == Some((Unsigned(r) as int, Unsigned(s) as int))
       <==> 2 + |Content(r)| + 2 + |Content(s)| < 0x80
  {
    ContentCorrect(r);
    ContentCorrect(s);
    ReadsEnclosed(Field(Content(r)) + Field(Content(s)));
    if 2 + |Content(r)| + 2 + |Content(s)| < 0x80 {
      ReadsPair(Content(r), Content(s));
    }
  }

  /** The reader accepts nothing else for these two integers: one signature, one encoding. */
  lemma DerIsCanonical(r: seq<Byte>, s: seq<Byte>, input: seq<Byte>)
    requires r != [] && s != []
    requires Read(input) == Some((Unsigned(r) as int, Unsigned(s) as int))
    ensures input == Signature(r, s)
  {
    EnclosedOf(input);
    var a, b := PairOf(input[2..]);
    SameContent(a, r);
    SameContent(b, s);
  }

  lemma SameContent(c: seq<Byte>, bytes: seq<Byte>)
    requires Minimal(c) && bytes != [] && Signed(c) == Unsigned(bytes)
    ensures c == Content(bytes)
  {
    ContentCorrect(bytes);
    SignedIsNegative(c);
    MinimalIsUnique(c, Content(bytes));
  }

  /** The bytes of a signature with short lengths: SEQUENCE is 0x30 and INTEGER is 0x02. */
  lemma DerLayout(r: seq<Byte>, s: seq<Byte>)
    requires r != [] && s != [] && 2 + |Content(r)| + 2 + |Content(s)| < 0x80
    ensures var sig, a, b := Signature(r, s), Content(r), Content(s);
      && |sig| == 6 + |a| + |b| && sig[0] == 0x30 && sig[1] == |sig| - 2
      && sig[2..4 + |a|] == [0x02, |a|] + a
      && sig[4 + |a|..] == [0x02, |b|] + b
  {
    ContentLayout(Content(r), Content(s));
  }

  lemma ContentLayout(a: seq<Byte>, b: seq<Byte>)
    requires 2 + |a| + 2 + |b| < 0x80
    ensures var sig := Enclosed(Field(a) + Field(b));
      && |sig| == 6 + |a| + |b| && sig[0] == 0x30 && sig[1] == |sig| - 2
      && sig[2..4 + |a|] == [0x02, |a|] + a
      && sig[4 + |a|..] == [0x02, |b|] + b
  {
    var f, g := Field(a), Field(b);
    SplitBody(Enclosed(f + g), 0x30, LengthByte(|f + g|), f, g);
  }

  lemma SplitBody(sig: seq<Byte>, tag: Byte, length: Byte, f: seq<Byte>, g: seq<Byte>)
    requires sig == [tag, length] + (f + g)
    ensures |sig| == 2 + |f| + |g| && sig[0] == tag && sig[1] == length
    ensures sig[2..2 + |f|] == f && sig[2 + |f|..] == g
  {
  }

  /** What the library signs with: for every 32-byte `r` and `s` the strict reader recovers both integers from
      the encoding and from no other bytes, and the encoding has 8 to 72 bytes. */
  lemma DerOfFixedWidth(r: seq<Byte>, s: seq<Byte>, input: seq<Byte>)
    requires |r| == |s| == 32
    ensures Read(input) == Some((Unsigned(r) as int, Unsigned(s) as int)) <==> input == Signature(r, s)
    ensures 8 <= |Signature(r, s)| <= 72
  {
    ContentCorrect(r);
    ContentCorrect(s);
    DerRoundTripIff(r, s);
    if Read(input) == Some((Unsigned(r) as int, Unsigned(s) as int)) {
      DerIsCanonical(r, s, input);
    }
  }
}

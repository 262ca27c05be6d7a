/** The byte layout of authenticator data with attested credential data (section 6.5.1 of WebAuthn
    Level 2), and how the public key is sliced out of it (handlers/webauthn_handler.go:81-93). */
module AuthData {
  import opened Common

  /** What slicing the bytes comes to; an index out of range is a run-time panic. */
  datatype Outcome = TooShort | Panics | Extracted(aaguid: seq<byte>, credID: seq<byte>, publicKey: seq<byte>)

  datatype Attested = Attested(
    rpIDHash: seq<byte>, flags: byte, signCount: nat, aaguid: seq<byte>, credID: seq<byte>, publicKey: seq<byte>)

  /** The big-endian value of some bytes. */
  function BigEndian(b: seq<byte>): nat {
    if b == [] then 0 else 256 * BigEndian(b[..|b| - 1]) + b[|b| - 1]
  }

  /** `width` big-endian bytes; what does not fit is cut off. */
  function ToBytes(width: nat, n: nat): (b: seq<byte>)
    ensures |b| == width
  {
    if width == 0 then [] else ToBytes(width - 1, n / 256) + [n % 256]
  }

  function Power(width: nat): nat {
    if width == 0 then 1 else 256 * Power(width - 1)
  }

  /** Sixteen-bit addition, as in the index expression of the source. */
  function Add16(a: nat, b: nat): nat {
    (a + b) % 0x1_0000
  }

  function Parse(a: seq<byte>): Outcome {
    if |a| < 55 then TooShort
    else
      var end := Add16(55, BigEndian(a[53..55]));
      if 55 <= end <= |a| then Extracted(a[37..53], a[55..end], a[end..]) else Panics
  }

  /** Authenticator data without extensions. */
  function Serialise(d: Attested): seq<byte> {
    d.rpIDHash + [d.flags] + ToBytes(4, d.signCount) + d.aaguid + ToBytes(2, |d.credID|) + d.credID + d.publicKey
  }

  ghost predicate WellFormed(d: Attested) {
    |d.rpIDHash| == 32 && d.signCount < 0x1_0000_0000 && |d.aaguid| == 16 && |d.credID| < 0x1_0000
  }

  // ---------- numbers and bytes ----------

  lemma {:induction false} ValueOfBytes(width: nat, n: nat)
    requires n < Power(width)
    ensures BigEndian(ToBytes(width, n)) == n
  {
    if width > 0 {
      ValueOfBytes(width - 1, n / 256);
      assert ToBytes(width, n)[..width - 1] == ToBytes(width - 1, n / 256);
    }
  }

  lemma {:induction false} BytesOfValue(b: seq<byte>)
    ensures BigEndian(b) < Power(|b|) && ToBytes(|b|, BigEndian(b)) == b
  {
    if b != [] {
      BytesOfValue(b[..|b| - 1]);
    }
  }

  lemma Powers()
    ensures Power(2) == 0x1_0000 && Power(4) == 0x1_0000_0000
  {
    assert Power(2) == 256 * Power(1);
    assert Power(4) == 256 * Power(3) && Power(3) == 256 * Power(2);
  }

  /** The index expression, for every length two bytes can hold. */
  lemma EndOf(n: nat)
    requires n < 0x1_0000
    ensures Add16(55, n) == if n <= 65480 then 55 + n else n - 65481
  {
  }

  lemma LengthFits(b: seq<byte>)
    requires |b| == 2
    ensures BigEndian(b) < 0x1_0000
  {
    BytesOfValue(b);
    Powers();
  }

  // ---------- the layout ----------

  lemma Cut(x: seq<byte>, y: seq<byte>)
    ensures (x + y)[..|x|] == x && (x + y)[|x|..] == y
  {
  }

  lemma Layout(d: Attested)
    requires WellFormed(d)
    ensures var a := Serialise(d);
            && |a| == 55 + |d.credID| + |d.publicKey|
            && a[..32] == d.rpIDHash && a[32] == d.flags && a[33..37] == ToBytes(4, d.signCount)
            && a[37..53] == d.aaguid && a[53..55] == ToBytes(2, |d.credID|) && a[55..] == d.credID + d.publicKey
  {
    var a := Serialise(d);
    var hash, count, length := d.rpIDHash, ToBytes(4, d.signCount), ToBytes(2, |d.credID|);
    var body := d.credID + d.publicKey;
    assert a == hash + ([d.flags] + (count + (d.aaguid + (length + body))));
    Cut(hash, [d.flags] + (count + (d.aaguid + (length + body))));
    assert a[33..] == a[32..][1..] == count + (d.aaguid + (length + body));
    Cut(count, d.aaguid + (length + body));
    assert a[37..] == a[33..][4..] && a[33..37] == a[33..][..4];
    Cut(d.aaguid, length + body);
    assert a[53..] == a[37..][16..] && a[37..53] == a[37..][..16];
    Cut(length, body);
    assert a[55..] == a[53..][2..] && a[53..55] == a[53..][..2];
  }

  /** Counter and length are in network byte order, at their offsets. */
  lemma NetworkOrder(d: Attested)
    requires WellFormed(d)
    ensures var a := Serialise(d);
            && |a| >= 55
            && 0x100_0000 * (a[33] as int) + 0x1_0000 * (a[34] as int) + 0x100 * (a[35] as int) + a[36] == d.signCount
            && 0x100 * (a[53] as int) + a[54] == |d.credID|
  {
    Layout(d);
    Powers();
    ValueOfBytes(4, d.signCount);
    ValueOfBytes(2, |d.credID|);
    var a := Serialise(d);
    TwoBytes(a[53..55]);
    FourBytes(a[33..37]);
  }

  lemma TwoBytes(b: seq<byte>)
    requires |b| == 2
    ensures BigEndian(b) == 0x100 * (b[0] as int) + b[1]
  {
    assert b[..1][..0] == [] && BigEndian(b[..1]) == b[0];
  }

  lemma FourBytes(b: seq<byte>)
    requires |b| == 4
    ensures BigEndian(b) == 0x100_0000 * (b[0] as int) + 0x1_0000 * (b[1] as int) + 0x100 * (b[2] as int) + b[3]
  {
    assert b[..3][..2] == b[..2];
    TwoBytes(b[..2]);
    assert BigEndian(b[..3]) == 256 * BigEndian(b[..2]) + b[2];
  }

  /** Slicing the serialised data gives back its parts exactly when the credential ID has at most
      65480 bytes; from 65481 on the 16-bit index wraps and slicing panics. */
  lemma RoundTripIff(d: Attested)
    requires WellFormed(d)
    ensures Parse(Serialise(d)) == Extracted(d.aaguid, d.credID, d.publicKey) <==> |d.credID| <= 65480
    ensures Parse(Serialise(d)) == Panics <==> |d.credID| > 65480
  {
    Layout(d);
    Powers();
    ValueOfBytes(2, |d.credID|);
    var a := Serialise(d);
    EndOf(|d.credID|);
    var end := Add16(55, |d.credID|);
    if |d.credID| <= 65480 {
      assert a[55..end] == a[55..][..|d.credID|] == d.credID;
      assert a[end..] == a[55..][|d.credID|..] == d.publicKey;
    }
  }

  /** Whatever is extracted is what the bytes are the serialisation of. */
  lemma OnlySerialised(a: seq<byte>) returns (d: Attested)
    requires Parse(a).Extracted?
    ensures WellFormed(d) && Serialise(d) == a && Parse(a) == Extracted(d.aaguid, d.credID, d.publicKey)
  {
    var p := Parse(a);
    BytesOfValue(a[33..37]);
    BytesOfValue(a[53..55]);
    Powers();
    EndOf(BigEndian(a[53..55]));
    d := Attested(a[..32], a[32], BigEndian(a[33..37]), p.aaguid, p.credID, p.publicKey);
    assert |p.credID| == BigEndian(a[53..55]);
    assert a == a[..32] + [a[32]] + a[33..37] + a[37..53] + a[53..55] + p.credID + p.publicKey;
  }

  /** A panic, on any bytes: the announced length is too large for 16 bits with the header, or
      for the bytes there are. */
  lemma PanicsIff(a: seq<byte>)
    ensures Parse(a).Panics? <==> |a| >= 55 && (BigEndian(a[53..55]) > 65480 || 55 + BigEndian(a[53..55]) > |a|)
  {
    if |a| >= 55 {
      LengthFits(a[53..55]);
      EndOf(BigEndian(a[53..55]));
    }
  }

  /** Two different records never serialise to the same bytes. */
  lemma SerialiseInjective(d: Attested, e: Attested)
    requires WellFormed(d) && WellFormed(e) && Serialise(d) == Serialise(e)
    ensures d == e
  {
    Layout(d);
    Layout(e);
    Powers();
    ValueOfBytes(2, |d.credID|);
    ValueOfBytes(2, |e.credID|);
    ValueOfBytes(4, d.signCount);
    ValueOfBytes(4, e.signCount);
    Cut(d.credID, d.publicKey);
    Cut(e.credID, e.publicKey);
  }
}

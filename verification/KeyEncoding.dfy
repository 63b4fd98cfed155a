/** RSA keys from DNSKEY form (section 2 of RFC 3110) to DER (section 8.3 of X.690). */
module KeyEncoding {
  import opened Bytes

  /** Exponent and modulus of a DNSKEY public key. */
  function SplitKey(key: seq<byte>): (r: Option<(seq<byte>, seq<byte>)>)
    ensures r.Some? ==> |r.value.0| + |r.value.1| < |key| && r.value.1 != []
  {
    if key == [] || (key[0] == 0 && |key| < 3) then None
    else
      var expLen := if key[0] == 0 then U16(key[1], key[2]) else key[0];
      var expStart := if key[0] == 0 then 3 else 1;
      if |key| < expStart + expLen || key[expStart + expLen..] == [] then None
      else Some((key[expStart..expStart + expLen], key[expStart + expLen..]))
  }

  /** `asn1_length`. */
  function Asn1Length(len: nat): seq<byte> {
    if len < 128 then [len]
    else if len < 256 then [0x81, len]
    else [0x82, len / 0x100 % 0x100, len % 0x100]
  }

  /** Strips leading zeros but keeps one byte. */
  function Stripped(bytes: seq<byte>): (r: seq<byte>)
    ensures r != [] && |r| <= |bytes| + 1 && (bytes != [] ==> |r| <= |bytes|)
    ensures r == [0] || r[0] != 0
  {
    if bytes == [] then [0]
    else if bytes[0] != 0 then bytes
    else Stripped(bytes[1..])
  }

  /** `asn1_integer`. */
  function Asn1Integer(bytes: seq<byte>): seq<byte> {
    var stripped := Stripped(bytes);
    var content: seq<byte> := if stripped[0] >= 0x80 then [0] + stripped else stripped;
    [0x02] + Asn1Length(|content|) + content
  }

  /** `rsa_dnskey_to_der`. */
  function RsaToDer(key: seq<byte>): Option<seq<byte>> {
    var (exponent, modulus) :- SplitKey(key);
    var content := Asn1Integer(modulus) + Asn1Integer(exponent);
    Some([0x30] + Asn1Length(|content|) + content)
  }

  // ---- A strict DER reader ----

  function BigEndian(s: seq<byte>): nat {
    if s == [] then 0 else BigEndian(s[..|s| - 1]) * 0x100 + s[|s| - 1]
  }

  /** Length octets in the shortest form, and the bytes after them. */
  function DecodeLength(b: seq<byte>): Option<(nat, seq<byte>)> {
    if |b| >= 1 && b[0] < 0x80 then Some((b[0], b[1..]))
    else if |b| >= 2 && b[0] == 0x81 && b[1] >= 0x80 then Some((b[1], b[2..]))
    else if |b| >= 3 && b[0] == 0x82 && b[1] > 0 then Some((U16(b[1], b[2]), b[3..]))
    else None
  }

  /** A minimally encoded non-negative INTEGER, and the bytes after it. */
  function DecodeInteger(b: seq<byte>): Option<(nat, seq<byte>)> {
    if b == [] || b[0] != 0x02 then None else
    var (n, rest) :- DecodeLength(b[1..]);
    if n == 0 || n > |rest| then None else
    var content := rest[..n];
    if content[0] >= 0x80 || (n > 1 && content[0] == 0 && content[1] < 0x80) then None
    else Some((BigEndian(content), rest[n..]))
  }

  /** A SEQUENCE of exactly two INTEGERs with nothing after it. */
  function DecodeKey(b: seq<byte>): Option<(nat, nat)> {
    if b == [] || b[0] != 0x30 then None else
    var (n, rest) :- DecodeLength(b[1..]);
    if n != |rest| then None else
    var (modulus, rest1) :- DecodeInteger(rest);
    var (exponent, rest2) :- DecodeInteger(rest1);
    if rest2 != [] then None else Some((modulus, exponent))
  }

  /** Keys the code refuses: nothing, a cut-off length, a cut-off exponent, or no modulus. */
  predicate Malformed(key: seq<byte>) {
    || key == []
    || (key[0] == 0 && |key| < 3)
    || |key| <= (if key[0] == 0 then 3 + U16(key[1], key[2]) else 1 + key[0] as int)
  }

  lemma {:induction false} BigEndianCons(x: byte, s: seq<byte>)
    ensures x == 0 ==> BigEndian([x] + s) == BigEndian(s)
  {
    var t := [x] + s;
    if s != [] {
      assert t[..|t| - 1] == [x] + s[..|s| - 1];
      BigEndianCons(x, s[..|s| - 1]);
    } else {
      assert t[..0] == [];
    }
  }

  lemma {:induction false} StrippedValue(s: seq<byte>)
    ensures BigEndian(Stripped(s)) == BigEndian(s)
  {
    if s != [] && s[0] == 0 {
      assert s == [0] + s[1..];
      BigEndianCons(0, s[1..]);
      StrippedValue(s[1..]);
    } else if s == [] {
      assert [0 as byte][..0] == [];
    }
  }

  lemma DecodeEncodedLength(len: nat, rest: seq<byte>)
    requires len < 0x1_0000
    ensures DecodeLength(Asn1Length(len) + rest) == Some((len, rest))
  {
    var b := Asn1Length(len) + rest;
    assert b[|Asn1Length(len)|..] == rest;
  }

  lemma DecodeContent(content: seq<byte>, rest: seq<byte>)
    requires content != [] && |content| < 0x1_0000
    requires content[0] < 0x80 && (|content| > 1 && content[0] == 0 ==> content[1] >= 0x80)
    ensures DecodeInteger([0x02] + Asn1Length(|content|) + content + rest) == Some((BigEndian(content), rest))
  {
    DecodeEncodedLength(|content|, content + rest);
    hide Asn1Length, DecodeLength, BigEndian;
    var len := Asn1Length(|content|);
    Assoc([0x02], len, content);
    Assoc([0x02], len + content, rest);
    Assoc(len, content, rest);
    assert ([0x02] + (len + (content + rest)))[1..] == len + (content + rest);
    Slices([], content, rest);
    assert [] + content == content;
  }

  /** Encoding then decoding an integer gives its value, and the encoding is minimal and non-negative. */
  lemma DecodeEncodedInteger(bytes: seq<byte>, rest: seq<byte>)
    requires |bytes| + 2 < 0x1_0000
    ensures DecodeInteger(Asn1Integer(bytes) + rest) == Some((BigEndian(bytes), rest))
  {
    hide BigEndian, DecodeInteger, Asn1Length, Stripped;
    var stripped := Stripped(bytes);
    var content: seq<byte> := if stripped[0] >= 0x80 then [0] + stripped else stripped;
    DecodeContent(content, rest);
    BigEndianCons(0, stripped);
    StrippedValue(bytes);
  }

  lemma Asn1IntegerSize(bytes: seq<byte>)
    ensures |Asn1Integer(bytes)| <= |bytes| + 6
  {
  }

  /**
   None exactly on malformed keys; otherwise strict DER whose integers are the big-endian modulus and
   exponent. Any key in a packet is far below the size limit.
   */
  lemma RsaKeyDecodes(key: seq<byte>)
    requires |key| < 0xFFF0
    ensures RsaToDer(key).None? <==> Malformed(key)
    ensures RsaToDer(key).Some? ==>
              var (exponent, modulus) := SplitKey(key).value;
              DecodeKey(RsaToDer(key).value) == Some((BigEndian(modulus), BigEndian(exponent)))
  {
    hide BigEndian, Asn1Integer, DecodeInteger, Asn1Length, DecodeLength;
    if RsaToDer(key).Some? {
      var (exponent, modulus) := SplitKey(key).value;
      var content := Asn1Integer(modulus) + Asn1Integer(exponent);
      Asn1IntegerSize(modulus);
      Asn1IntegerSize(exponent);
      assert RsaToDer(key).value[1..] == Asn1Length(|content|) + content;
      DecodeEncodedLength(|content|, content);
      DecodeEncodedInteger(modulus, Asn1Integer(exponent));
      assert Asn1Integer(exponent) == Asn1Integer(exponent) + [];
      DecodeEncodedInteger(exponent, []);
    }
  }
}

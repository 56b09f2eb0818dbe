/**
 * Bytes, SHA-256 digests and the URL-safe base64 alphabet with padding
 * (section 5 of RFC 4648), which is how a scan's hash is written down.
 * SHA-256 itself is not modelled: it is passed around as a function value.
 */
module Base64Url {
  import opened Wrappers

  type byte = x: int | 0 <= x < 256
  type Bytes = seq<byte>

  /** A SHA-256 digest is 32 bytes long. */
  type Digest = d: Bytes | |d| == 32 witness seq(32, _ => 0)

  /** The 64-character URL-safe alphabet: A-Z, a-z, 0-9, '-' and '_'. */
  function Letter(i: int): (c: char)
    requires 0 <= i < 64
    ensures IsLetter(c) && Index(c) == i
  {
    if i < 26 then ('A' as int + i) as char
    else if i < 52 then ('a' as int + i - 26) as char
    else if i < 62 then ('0' as int + i - 52) as char
    else if i == 62 then '-'
    else '_'
  }

  predicate IsLetter(c: char) {
    ('A' <= c <= 'Z') || ('a' <= c <= 'z') || ('0' <= c <= '9') || c == '-' || c == '_'
  }

  function Index(c: char): (i: int)
    requires IsLetter(c)
    ensures 0 <= i < 64
  {
    if 'A' <= c <= 'Z' then c as int - 'A' as int
    else if 'a' <= c <= 'z' then c as int - 'a' as int + 26
    else if '0' <= c <= '9' then c as int - '0' as int + 52
    else if c == '-' then 62
    else 63
  }

  /** Four letters for three bytes. */
  function Quad(a: byte, b: byte, c: byte): string {
    [Letter(a / 4), Letter((a % 4) * 16 + b / 16), Letter((b % 16) * 4 + c / 64), Letter(c % 64)]
  }

  /** `base64.urlsafe_b64encode`: groups of three bytes, the last group padded with '='. */
  function Encode(bs: Bytes): string
    decreases |bs|
  {
    if |bs| == 0 then ""
    else if |bs| == 1 then [Letter(bs[0] / 4), Letter((bs[0] % 4) * 16), '=', '=']
    else if |bs| == 2 then [Letter(bs[0] / 4), Letter((bs[0] % 4) * 16 + bs[1] / 16), Letter((bs[1] % 16) * 4), '=']
    else Quad(bs[0], bs[1], bs[2]) + Encode(bs[3..])
  }

  /** The inverse of Encode on its image; None on text that is not base64url. */
  function Decode(s: string): Option<Bytes>
    decreases |s|
  {
    if |s| == 0 then Some([])
    else if |s| < 4 || !IsLetter(s[0]) || !IsLetter(s[1]) then None
    else
      var i0, i1 := Index(s[0]), Index(s[1]);
      var b0 := i0 * 4 + i1 / 16;
      if |s| == 4 && s[2] == '=' && s[3] == '=' then Some([b0])
      else if !IsLetter(s[2]) then None
      else
        var i2 := Index(s[2]);
        var b1 := (i1 % 16) * 16 + i2 / 4;
        if |s| == 4 && s[3] == '=' then Some([b0, b1])
        else if !IsLetter(s[3]) then None
        else
          var b2 := (i2 % 4) * 64 + Index(s[3]);
          match Decode(s[4..])
          case None => None
          case Some(rest) => Some([b0, b1, b2] + rest)
  }

  lemma QuadRoundTrip(a: byte, b: byte, c: byte)
    ensures a / 4 * 4 + ((a % 4) * 16 + b / 16) / 16 == a
    ensures (((a % 4) * 16 + b / 16) % 16) * 16 + ((b % 16) * 4 + c / 64) / 4 == b
    ensures (((b % 16) * 4 + c / 64) % 4) * 64 + c % 64 == c
  {
  }

  lemma DecodeOne(a: byte)
    ensures Decode(Encode([a])) == Some([a])
  {
    QuadRoundTrip(a, 0, 0);
    var s := Encode([a]);
    assert |s| == 4 && s[2] == '=' && s[3] == '=';
    assert Index(s[0]) == a / 4 && Index(s[1]) == (a % 4) * 16;
  }

  lemma DecodeTwo(a: byte, b: byte)
    ensures Decode(Encode([a, b])) == Some([a, b])
  {
    QuadRoundTrip(a, b, 0);
    var s := Encode([a, b]);
    assert |s| == 4 && IsLetter(s[2]) && s[2] != '=' && s[3] == '=';
    assert Index(s[0]) == a / 4 && Index(s[1]) == (a % 4) * 16 + b / 16;
    assert Index(s[2]) == (b % 16) * 4;
  }

  lemma DecodeQuad(a: byte, b: byte, c: byte, t: string, rest: Bytes)
    requires |t| > 0 && Decode(t) == Some(rest)
    ensures Decode(Quad(a, b, c) + t) == Some([a, b, c] + rest)
  {
    QuadRoundTrip(a, b, c);
    var s := Quad(a, b, c) + t;
    assert |s| > 4 && IsLetter(s[2]) && IsLetter(s[3]) && s[2] != '=';
    assert Index(s[0]) == a / 4 && Index(s[1]) == (a % 4) * 16 + b / 16;
    assert Index(s[2]) == (b % 16) * 4 + c / 64 && Index(s[3]) == c % 64;
    assert s[4..] == t;
  }

  /** Decoding undoes encoding, so equal hashes mean equal digests. */
  lemma {:induction false} RoundTrip(bs: Bytes)
    ensures Decode(Encode(bs)) == Some(bs)
    decreases |bs|
  {
    if |bs| == 0 {
    } else if |bs| == 1 {
      DecodeOne(bs[0]);
      assert bs == [bs[0]];
    } else if |bs| == 2 {
      DecodeTwo(bs[0], bs[1]);
      assert bs == [bs[0], bs[1]];
    } else {
      RoundTrip(bs[3..]);
      RoundTripGroup(bs);
    }
  }

  /** The first group of three bytes decodes back in front of the rest. */
  lemma RoundTripGroup(bs: Bytes)
    requires |bs| >= 3 && Decode(Encode(bs[3..])) == Some(bs[3..])
    ensures Decode(Encode(bs)) == Some(bs)
  {
    EncodeGroup(bs);
    SplitGroup(bs);
    if |bs| == 3 {
      QuadAlone(bs[0], bs[1], bs[2]);
    } else {
      EncodeLength(bs[3..]);
      DecodeQuad(bs[0], bs[1], bs[2], Encode(bs[3..]), bs[3..]);
    }
  }

  lemma EncodeGroup(bs: Bytes)
    requires |bs| >= 3
    ensures Encode(bs) == Quad(bs[0], bs[1], bs[2]) + Encode(bs[3..])
  {
  }

  lemma SplitGroup(bs: Bytes)
    requires |bs| >= 3
    ensures bs == [bs[0], bs[1], bs[2]] + bs[3..]
  {
    assert bs == bs[..3] + bs[3..];
  }

  lemma QuadAlone(a: byte, b: byte, c: byte)
    ensures Decode(Quad(a, b, c) + "") == Some([a, b, c])
  {
    QuadRoundTrip(a, b, c);
    var s := Quad(a, b, c) + "";
    assert |s| == 4 && IsLetter(s[2]) && IsLetter(s[3]) && s[2] != '=' && s[3] != '=';
    assert Index(s[0]) == a / 4 && Index(s[1]) == (a % 4) * 16 + b / 16;
    assert Index(s[2]) == (b % 16) * 4 + c / 64 && Index(s[3]) == c % 64;
    assert s[4..] == "";
    assert [a, b, c] + [] == [a, b, c];
  }

  lemma EncodeInjective(a: Bytes, b: Bytes)
    requires Encode(a) == Encode(b)
    ensures a == b
  {
    RoundTrip(a);
    RoundTrip(b);
  }

  /** Every four-character group is letters, then at most two '=' at the end of the text. */
  lemma {:induction false} EncodeLength(bs: Bytes)
    ensures |Encode(bs)| == 4 * ((|bs| + 2) / 3)
    ensures forall k :: 0 <= k < |Encode(bs)| ==> IsLetter(Encode(bs)[k]) || Encode(bs)[k] == '='
    decreases |bs|
  {
    if |bs| >= 3 {
      EncodeLength(bs[3..]);
      var n := |bs| - 3;
      assert (n + 3 + 2) / 3 == (n + 2) / 3 + 1;
      var t := Encode(bs[3..]);
      var q := Quad(bs[0], bs[1], bs[2]);
      assert Encode(bs) == q + t;
      assert forall k :: 0 <= k < |q + t| ==> (q + t)[k] == (if k < 4 then q[k] else t[k - 4]);
    }
  }

  /**
   * A digest encodes to 44 characters, so a hash is never the empty text, and the
   * URL-safe alphabet has no '/', so a hash names a single path component.
   */
  lemma DigestText(d: Digest)
    ensures |Encode(d)| == 44
    ensures Encode(d) != ""
    ensures '/' !in Encode(d)
  {
    EncodeLength(d);
    var e := Encode(d);
    assert (|d| + 2) / 3 == 11;
    forall k | 0 <= k < |e| ensures e[k] != '/' {
      assert IsLetter(e[k]) || e[k] == '=';
    }
  }
}

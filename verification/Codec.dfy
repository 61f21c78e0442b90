/** Text the program signs and hashes: decimal numbers, the signing string of a PBFT message, the
    header string of a block, and the hexadecimal form of signatures. */
module Codec {
  import R = Replica

  type Byte = x: int | 0 <= x < 256

  // ---------- decimal ----------

  function Digit(d: nat): char
    requires d < 10
  {
    '0' + d as char
  }

  /** An unsigned number as std::to_string and operator<< print it. */
  function Dec(n: nat): (s: string)
    ensures |s| > 0
  {
    if n < 10 then [Digit(n)] else Dec(n / 10) + [Digit(n % 10)]
  }

  function Undec(s: string): int {
    if s == [] then 0 else 10 * Undec(s[..|s| - 1]) + (s[|s| - 1] as int - '0' as int)
  }

  lemma {:induction false} DecRoundTrip(n: nat)
    ensures Undec(Dec(n)) == n
  {
    if n >= 10 {
      DecRoundTrip(n / 10);
      assert Dec(n)[..|Dec(n)| - 1] == Dec(n / 10);
    } else {
      assert Dec(n)[..0] == [];
    }
  }

  lemma DecInjective(m: nat, n: nat)
    requires Dec(m) == Dec(n)
    ensures m == n
  {
    DecRoundTrip(m);
    DecRoundTrip(n);
  }

  lemma SplitAtEnd(a: string, x: string, b: string, y: string)
    requires a + x == b + y && |x| == |y|
    ensures a == b && x == y
  {
    assert a == (a + x)[..|a|] && b == (b + y)[..|b|];
    assert x == (a + x)[|a|..] && y == (b + y)[|b|..];
  }

  lemma SplitAtStart(a: string, x: string, b: string, y: string)
    requires a + x == b + y && |a| == |b|
    ensures a == b && x == y
  {
    assert a == (a + x)[..|a|] && b == (b + y)[..|b|];
    assert x == (a + x)[|a|..] && y == (b + y)[|b|..];
  }

  lemma Associate(a: string, b: string, c: string, d: string)
    ensures a + b + c + d == a + (b + (c + d))
  {
  }

  // ---------- the signing string ----------

  function TypeNumber(t: R.MType): nat {
    match t
    case Preprepare => 1
    case Prepare => 2
    case Commit => 3
  }

  /** What is printed first tells the type. */
  lemma TypeComesFirst(t: R.MType, view: nat, seqNo: nat, digest: string)
    ensures SigningString(t, view, seqNo, digest)[0] ==
              match t case Preprepare => '1' case Prepare => '2' case Commit => '3'
  {
    assert Dec(TypeNumber(t)) == [Digit(TypeNumber(t))];
  }

  /** A receiver's reading of a signing string of view 0 by position: the number behind type and view, and
      in front of a digest of the given length. */
  function ReadSeqNo(s: string, digestLength: nat): int
    requires |s| >= 2 + digestLength
  {
    Undec(s[2..|s| - digestLength])
  }

  lemma SigningRoundTrip(t: R.MType, seqNo: nat, digest: string)
    ensures var s := SigningString(t, 0, seqNo, digest);
            && |s| >= 2 + |digest| && s[1] == '0'
            && ReadSeqNo(s, |digest|) == seqNo && s[|s| - |digest|..] == digest
  {
    var s := SigningString(t, 0, seqNo, digest);
    assert |Dec(TypeNumber(t))| == 1 && Dec(0) == "0";
    assert s[2..|s| - |digest|] == Dec(seqNo);
    DecRoundTrip(seqNo);
  }

  function SigningString(t: R.MType, view: nat, seqNo: nat, digest: string): string {
    Dec(TypeNumber(t)) + Dec(view) + Dec(seqNo) + digest
  }

  /** The type is one character, so equal strings are equal after it. */
  lemma SigningStringParts(t1: R.MType, v1: nat, s1: nat, d1: string, t2: R.MType, v2: nat, s2: nat, d2: string)
    ensures SigningString(t1, v1, s1, d1) == SigningString(t2, v2, s2, d2) <==>
            t1 == t2 && Dec(v1) + (Dec(s1) + d1) == Dec(v2) + (Dec(s2) + d2)
  {
    var h1, h2 := Dec(TypeNumber(t1)), Dec(TypeNumber(t2));
    assert |h1| == 1 && |h2| == 1;
    Associate(h1, Dec(v1), Dec(s1), d1);
    Associate(h2, Dec(v2), Dec(s2), d2);
    if SigningString(t1, v1, s1, d1) == SigningString(t2, v2, s2, d2) {
      SplitAtStart(h1, Dec(v1) + (Dec(s1) + d1), h2, Dec(v2) + (Dec(s2) + d2));
      DecInjective(TypeNumber(t1), TypeNumber(t2));
    }
  }

  /** A number prints a leading zero only when it is zero. */
  lemma {:induction false} LeadingDigit(n: nat)
    ensures Dec(n)[0] == '0' <==> n == 0
  {
    if n >= 10 { LeadingDigit(n / 10); }
  }

  /** What the program signs, always in view 0, can be read only as a message of that type and of
      view 0: the one freedom left is where the sequence number ends and the digest begins. */
  lemma SigningStringReads(t1: R.MType, s1: nat, d1: string, t2: R.MType, v2: nat, s2: nat, d2: string)
    ensures SigningString(t1, 0, s1, d1) == SigningString(t2, v2, s2, d2) <==>
            t1 == t2 && v2 == 0 && Dec(s1) + d1 == Dec(s2) + d2
  {
    SigningStringParts(t1, 0, s1, d1, t2, v2, s2, d2);
    var x, y := Dec(s1) + d1, Dec(s2) + d2;
    if Dec(0) + x == Dec(v2) + y {
      assert (Dec(0) + x)[0] == '0' && (Dec(v2) + y)[0] == Dec(v2)[0];
      LeadingDigit(v2);
      SplitAtStart(Dec(0), x, Dec(0), y);
    }
  }

  /** Digests of one length, which GetDigest makes, leave none: the string determines type, view,
      number and digest, however large the numbers are. */
  lemma SigningStringDecodes(t1: R.MType, s1: nat, d1: string, t2: R.MType, v2: nat, s2: nat, d2: string)
    requires |d1| == |d2|
    ensures SigningString(t1, 0, s1, d1) == SigningString(t2, v2, s2, d2) <==> t1 == t2 && v2 == 0 && s1 == s2 && d1 == d2
  {
    SigningStringReads(t1, s1, d1, t2, v2, s2, d2);
    if Dec(s1) + d1 == Dec(s2) + d2 {
      SplitAtEnd(Dec(s1), d1, Dec(s2), d2);
      DecInjective(s1, s2);
    }
  }

  /** Without that, every number but 0 has another reading. */
  lemma LengthsMatter(t: R.MType, s: nat, d: string)
    requires s > 0
    ensures SigningString(t, 0, s, "1" + d) == SigningString(t, 0, 10 * s + 1, d)
  {
    assert (10 * s + 1) / 10 == s && (10 * s + 1) % 10 == 1;
    assert Dec(10 * s + 1) == Dec(s) + "1";
    assert Dec(s) + ("1" + d) == Dec(10 * s + 1) + d;
    SigningStringReads(t, s, "1" + d, t, 0, 10 * s + 1, d);
  }

  /** Among messages of one view, whichever it is, the string decodes as well. */
  lemma SameViewDecodes(view: nat, t1: R.MType, s1: nat, d1: string, t2: R.MType, s2: nat, d2: string)
    requires |d1| == |d2|
    ensures SigningString(t1, view, s1, d1) == SigningString(t2, view, s2, d2) <==> t1 == t2 && s1 == s2 && d1 == d2
  {
    SigningStringParts(t1, view, s1, d1, t2, view, s2, d2);
    if SigningString(t1, view, s1, d1) == SigningString(t2, view, s2, d2) {
      SplitAtStart(Dec(view), Dec(s1) + d1, Dec(view), Dec(s2) + d2);
      SplitAtEnd(Dec(s1), d1, Dec(s2), d2);
      DecInjective(s1, s2);
    }
  }

  /** No message of this view shares its signing string with another message of any view. */
  ghost predicate ViewIsUnambiguous(view: nat) {
    forall t1: R.MType, s1: nat, d1: string, t2: R.MType, v2: nat, s2: nat, d2: string ::
      |d1| == |d2| && SigningString(t1, view, s1, d1) == SigningString(t2, v2, s2, d2)
      ==> t1 == t2 && v2 == view && s1 == s2 && d1 == d2
  }

  /** View and sequence number are printed without a separator, so the last digit of one can be the
      first of the other. */
  lemma LaterViewsCollide(t: R.MType, view: nat, digest: string)
    requires view > 0
    ensures SigningString(t, view, 11, digest) == SigningString(t, 10 * view + 1, 1, digest)
  {
    var v2 := 10 * view + 1;
    assert v2 / 10 == view && v2 % 10 == 1;
    assert Dec(v2) == Dec(view) + Dec(1) && Dec(11) == Dec(1) + Dec(1);
    assert SigningString(t, view, 11, digest) == Dec(TypeNumber(t)) + (Dec(view) + Dec(1) + Dec(1)) + digest;
    assert SigningString(t, v2, 1, digest) == Dec(TypeNumber(t)) + (Dec(view) + Dec(1) + Dec(1)) + digest;
  }

  /** View 0, the only one the program ever signs, is the only unambiguous one. */
  lemma OnlyViewZeroIsUnambiguous(view: nat)
    ensures ViewIsUnambiguous(view) <==> view == 0
  {
    if view == 0 {
      forall t1: R.MType, s1: nat, d1: string, t2: R.MType, v2: nat, s2: nat, d2: string
        | |d1| == |d2| && SigningString(t1, view, s1, d1) == SigningString(t2, v2, s2, d2)
        ensures t1 == t2 && v2 == view && s1 == s2 && d1 == d2
      {
        SigningStringDecodes(t1, s1, d1, t2, v2, s2, d2);
      }
    } else {
      LaterViewsCollide(R.Prepare, view, "");
      assert |""| == |""| && 10 * view + 1 != view;
    }
  }

  // ---------- the header string ----------

  /** What HeaderHash hashes. */
  function HeaderString(height: nat, target: nat, prevHash: string, merkleRoot: string, nonce: string): string {
    Dec(height) + Dec(target) + prevHash + merkleRoot + nonce
  }

  /** The text covers every field: with one target and one nonce, and hashes of one length, equal texts
      mean equal heights, predecessors and Merkle roots. */
  lemma HeaderStringExactly(target: nat, nonce: string, h1: nat, p1: string, m1: string, h2: nat, p2: string, m2: string)
    requires |p1| == |p2| && |m1| == |m2|
    ensures HeaderString(h1, target, p1, m1, nonce) == HeaderString(h2, target, p2, m2, nonce) <==>
            h1 == h2 && p1 == p2 && m1 == m2
  {
    if HeaderString(h1, target, p1, m1, nonce) == HeaderString(h2, target, p2, m2, nonce) {
      SplitAtEnd(Dec(h1) + Dec(target) + p1 + m1, nonce, Dec(h2) + Dec(target) + p2 + m2, nonce);
      SplitAtEnd(Dec(h1) + Dec(target) + p1, m1, Dec(h2) + Dec(target) + p2, m2);
      SplitAtEnd(Dec(h1) + Dec(target), p1, Dec(h2) + Dec(target), p2);
      SplitAtEnd(Dec(h1), Dec(target), Dec(h2), Dec(target));
      DecInjective(h1, h2);
    }
  }

  /** Reading a header text by position, given the length of hashes and of the nonce. */
  datatype HeaderParts = HeaderParts(heightAndTarget: string, prevHash: string, merkleRoot: string, nonce: string)

  function ReadHeader(s: string, hashLength: nat, nonceLength: nat): HeaderParts
    requires |s| >= 2 * hashLength + nonceLength
  {
    var c := |s| - nonceLength;
    var b := c - hashLength;
    var a := b - hashLength;
    HeaderParts(s[..a], s[a..b], s[b..c], s[c..])
  }

  lemma HeaderRoundTrip(height: nat, target: nat, prevHash: string, merkleRoot: string, nonce: string)
    requires |prevHash| == |merkleRoot|
    ensures var s := HeaderString(height, target, prevHash, merkleRoot, nonce);
            && |s| >= 2 * |prevHash| + |nonce|
            && ReadHeader(s, |prevHash|, |nonce|) == HeaderParts(Dec(height) + Dec(target), prevHash, merkleRoot, nonce)
  {
    var s := HeaderString(height, target, prevHash, merkleRoot, nonce);
    var x := Dec(height) + Dec(target);
    var c := |s| - |nonce|;
    assert s[..c] == x + prevHash + merkleRoot && s[c..] == nonce;
    var b := c - |merkleRoot|;
    assert s[..b] == x + prevHash;
    assert s[b..c] == s[..c][b..] == merkleRoot;
    var a := b - |prevHash|;
    assert s[..a] == x && s[a..b] == s[..b][a..] == prevHash;
  }

  // ---------- hexadecimal ----------

  function HexDigit(v: nat): (c: char)
    requires v < 16
  {
    if v < 10 then '0' + v as char else 'a' + (v - 10) as char
  }

  /** The value of a hexadecimal digit of either case. */
  function HexValue(c: char): R.Option<nat> {
    if '0' <= c <= '9' then R.Some(c as nat - '0' as nat)
    else if 'a' <= c <= 'f' then R.Some(c as nat - 'a' as nat + 10)
    else if 'A' <= c <= 'F' then R.Some(c as nat - 'A' as nat + 10)
    else R.None
  }

  /** The digits of either case, and no other characters. */
  lemma HexValueExactly(c: char, v: nat)
    ensures HexValue(c) == R.Some(v) <==> v < 16 && (c == "0123456789abcdef"[v] || c == "0123456789ABCDEF"[v])
  {
  }

  lemma HexDigitValue(v: nat)
    requires v < 16
    ensures HexValue(HexDigit(v)) == R.Some(v)
  {
  }

  /** The digits of sprintf with %02x. */
  lemma HexDigitIsPrinted(v: nat)
    requires v < 16
    ensures HexDigit(v) == "0123456789abcdef"[v] && HexDigit(v) in "0123456789abcdef"
  {
  }

  /** The signature loop of CalSignature and Signate: two lower-case digits per byte. */
  method EncodeHex(bytes: seq<Byte>) returns (hex: string)
    ensures |hex| == 2 * |bytes| && forall c :: c in hex ==> c in "0123456789abcdef"
    ensures forall i :: 0 <= i < |bytes| ==>
              hex[2 * i] == HexDigit(bytes[i] / 16) && hex[2 * i + 1] == HexDigit(bytes[i] % 16)
  {
    hex := "";
    for i := 0 to |bytes|
      invariant |hex| == 2 * i && forall c :: c in hex ==> c in "0123456789abcdef"
      invariant forall j :: 0 <= j < i ==>
                  hex[2 * j] == HexDigit(bytes[j] / 16) && hex[2 * j + 1] == HexDigit(bytes[j] % 16)
    {
      HexDigitIsPrinted(bytes[i] / 16);
      HexDigitIsPrinted(bytes[i] % 16);
      hex := hex + [HexDigit(bytes[i] / 16), HexDigit(bytes[i] % 16)];
    }
  }

  /** What sscanf with %02x makes of two characters, when the first is a digit: a second one that is
      not ends the number. A first character that is not a digit, and the prefix 0x, are outside this
      model. */
  function ScanPair(hi: char, lo: char): R.Option<Byte> {
    match (HexValue(hi), HexValue(lo))
    case (Some(x), Some(y)) => HexRange(hi); HexRange(lo); R.Some(16 * x + y)
    case (Some(x), None) => HexRange(hi); if hi == '0' && (lo == 'x' || lo == 'X') then R.None else R.Some(x)
    case (None, _) => R.None
  }

  lemma HexRange(c: char)
    ensures HexValue(c).Some? ==> HexValue(c).value < 16
  {
  }

  /** The loop of ValidateSignature and CheckSignature: half as many bytes as characters, an odd last
      character ignored. None when some pair cannot be scanned. */
  method DecodeHex(hex: string) returns (r: R.Option<seq<Byte>>)
    ensures r.Some? ==> |r.value| == |hex| / 2
    ensures r.Some? ==> forall i :: 0 <= i < |r.value| && 2 * i + 1 < |hex| ==>
                          ScanPair(hex[2 * i], hex[2 * i + 1]) == R.Some(r.value[i])
    ensures r.None? <==> exists i :: 0 <= i < |hex| / 2 && ScanPair(hex[2 * i], hex[2 * i + 1]).None?
  {
    var bytes: seq<Byte> := [];
    var n := |hex| / 2;
    for i := 0 to n
      invariant |bytes| == i
      invariant forall j :: 0 <= j < i ==> ScanPair(hex[2 * j], hex[2 * j + 1]) == R.Some(bytes[j])
    {
      var byte := ScanPair(hex[2 * i], hex[2 * i + 1]);
      if byte.None? { return R.None; }
      bytes := bytes + [byte.value];
    }
    r := R.Some(bytes);
  }

  /** Round trip: encoding and decoding a signature returns it, for every byte sequence. */
  method SignatureRoundTrip(bytes: seq<Byte>) returns (hex: string, back: R.Option<seq<Byte>>)
    ensures |hex| == 2 * |bytes|
    ensures back == R.Some(bytes)
  {
    hex := EncodeHex(bytes);
    forall i | 0 <= i < |bytes| ensures ScanPair(hex[2 * i], hex[2 * i + 1]) == R.Some(bytes[i]) {
      HexDigitValue(bytes[i] / 16);
      HexDigitValue(bytes[i] % 16);
    }
    back := DecodeHex(hex);
    assert back.Some?;
    assert forall i :: 0 <= i < |bytes| ==> R.Some(back.value[i]) == R.Some(bytes[i]);
    assert back.value == bytes;
  }
}

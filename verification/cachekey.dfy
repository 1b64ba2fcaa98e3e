/** `calculateCacheKey`: the cache is addressed by
      prefix = "texlive-" + platform + "-" + machine + "-" + cacheVersion + "-" + hash + "-"
      full   = prefix + date
    where `hash` is the lower-case hex SHA-256 digest of the UTF-8 bytes of
    the comma-joined package list and `date` is today's UTC date. SHA-256 and
    the date are supplied by the caller. */
module CacheKey {
  import opened Wrappers
  import opened Text
  import Utf8

  type byte = Utf8.byte

  /** A SHA-256 digest: 32 bytes. */
  type Digest = s: seq<byte> | |s| == 32 witness seq(32, _ => 0)

  /** `byte.toString(16).padStart(2, '0')`. */
  function ByteToHex(b: byte): (h: string)
    ensures h == [DigitChar(b / 16), DigitChar(b % 16)]
  {
    var digits := NumberToString(b, 16);
    if b < 16 then
      assert digits == [DigitChar(b)];
      PadStart(digits, 2, '0')
    else
      assert NumberToString(b / 16, 16) == [DigitChar(b / 16)];
      PadStart(digits, 2, '0')
  }

  predicate IsLowerHex(c: char) {
    IsDigit(c, 16)
  }

  /** The bytes' two-digit hex codes, concatenated. */
  function HexEncode(bs: seq<byte>): (h: string)
    ensures |h| == 2 * |bs|
    ensures forall i | 0 <= i < |h| :: IsLowerHex(h[i])
  {
    if |bs| == 0 then ""
    else
      var t := HexEncode(bs[1..]);
      HexCons(bs[0], t);
      ByteToHex(bs[0]) + t
  }

  /** Putting one byte's hex code in front of hex digits gives hex digits. */
  lemma HexCons(b: byte, t: string)
    requires forall i | 0 <= i < |t| :: IsLowerHex(t[i])
    ensures var h := ByteToHex(b) + t; forall i | 0 <= i < |h| :: IsLowerHex(h[i])
  {
    var pair := ByteToHex(b);
    var h := pair + t;
    DigitValueOfChar(b / 16);
    DigitValueOfChar(b % 16);
    assert IsLowerHex(pair[0]) && IsLowerHex(pair[1]);
    forall i | 0 <= i < |h| ensures IsLowerHex(h[i]) {
      if i < 2 {
        assert h[i] == pair[i];
      } else {
        assert h[i] == t[i - 2];
      }
    }
  }

  /** Reads pairs of hex digits back into bytes. */
  function HexDecode(h: string): (r: Option<seq<byte>>)
    ensures r.Some? ==> 2 * |r.value| == |h|
    decreases |h|
  {
    if |h| == 0 then Some([])
    else if |h| == 1 || !IsLowerHex(h[0]) || !IsLowerHex(h[1]) then None
    else
      match HexDecode(h[2..])
      case None => None
      case Some(rest) => Some([DigitValue(h[0]) * 16 + DigitValue(h[1])] + rest)
  }

  /** Hex encoding loses nothing: decoding it gives the bytes back. */
  lemma {:induction false} HexRoundTrip(bs: seq<byte>)
    ensures HexDecode(HexEncode(bs)) == Some(bs)
    decreases |bs|
  {
    if |bs| > 0 {
      var b, rest := bs[0], bs[1..];
      assert HexEncode(bs) == ByteToHex(b) + HexEncode(rest);
      HexRoundTrip(rest);
      DecodeByteHex(b, HexEncode(rest), rest);
      assert [b] + rest == bs;
    }
  }

  /** Decoding reads one byte back from its two hex digits. */
  lemma DecodeByteHex(b: byte, t: string, rest: seq<byte>)
    requires HexDecode(t) == Some(rest)
    ensures HexDecode(ByteToHex(b) + t) == Some([b] + rest)
  {
    var pair := ByteToHex(b);
    var h := pair + t;
    assert h[0] == pair[0] && h[1] == pair[1] && h[2..] == t;
    HexPairValue(b);
    assert DigitValue(h[0]) * 16 + DigitValue(h[1]) == b;
    assert HexDecode(h[2..]) == Some(rest);
    HexDecodeStep(h);
  }

  /** Decoding reads the first two digits as one byte. */
  lemma HexDecodeStep(h: string)
    requires 2 <= |h| && IsLowerHex(h[0]) && IsLowerHex(h[1]) && HexDecode(h[2..]).Some?
    ensures HexDecode(h) == Some([DigitValue(h[0]) * 16 + DigitValue(h[1])] + HexDecode(h[2..]).value)
  {
  }

  /** The two hex digits of a byte are hex digits and spell its value. */
  lemma HexPairValue(b: byte)
    ensures var pair := ByteToHex(b);
      IsLowerHex(pair[0]) && IsLowerHex(pair[1]) && DigitValue(pair[0]) * 16 + DigitValue(pair[1]) == b
  {
    DigitValueOfChar(b / 16);
    DigitValueOfChar(b % 16);
    DivMod(b, 16);
  }

  datatype CacheKey = CacheKey(prefix: string, full: string)

  /** The bytes that are hashed: `new TextEncoder().encode(packages.join())`. */
  function HashInput(packages: seq<string>): seq<byte> {
    Utf8.Encode(Join(packages, ","))
  }

  /** `${os.platform()}-${os.machine()}`: the host's own names, not the
      TeX Live platform identifier. */
  function OsId(platform: string, machine: string): string {
    platform + "-" + machine
  }

  /** The part of the prefix before the hash. */
  function KeyHead(osid: string, version: string): string {
    "texlive-" + osid + "-" + version + "-"
  }

  /** Recovers the digest from a prefix: the 64 hex digits before its final `-`. */
  function PrefixDigest(prefix: string): Option<seq<byte>> {
    if |prefix| < 65 || prefix[|prefix| - 1] != '-' then None
    else HexDecode(prefix[|prefix| - 65..|prefix| - 1])
  }

  /** `calculateCacheKey(version, packages)` on a host reporting `platform`
      and `machine`, on the UTC day `date`, with `sha256` for the digest. */
  function CalculateCacheKey(version: string, packages: seq<string>, platform: string, machine: string,
                             date: string, sha256: seq<byte> -> Digest): (k: CacheKey)
    ensures k.full == k.prefix + date
    ensures |k.prefix| == |KeyHead(OsId(platform, machine), version)| + 65
    ensures k.prefix[..|KeyHead(OsId(platform, machine), version)|] == KeyHead(OsId(platform, machine), version)
    ensures forall i | |k.prefix| - 65 <= i < |k.prefix| - 1 :: IsLowerHex(k.prefix[i])
    ensures PrefixDigest(k.prefix) == Some(sha256(HashInput(packages)))
  {
    var head := KeyHead(OsId(platform, machine), version);
    var digest := sha256(HashInput(packages));
    var hex := HexEncode(digest);
    PrefixLayout(head, hex);
    HexRoundTrip(digest);
    CacheKey(head + hex + "-", head + hex + "-" + date)
  }

  /** Where the parts of `head + hex + "-"` sit. */
  lemma PrefixLayout(head: string, hex: string)
    requires |hex| == 64 && forall i | 0 <= i < |hex| :: IsLowerHex(hex[i])
    ensures var prefix := head + hex + "-";
      && |prefix| == |head| + 65
      && prefix[..|head|] == head
      && (forall i | |prefix| - 65 <= i < |prefix| - 1 :: IsLowerHex(prefix[i]))
      && PrefixDigest(prefix) == HexDecode(hex)
  {
    var prefix := head + hex + "-";
    assert prefix[..|head|] == head;
    assert prefix[|prefix| - 65..|prefix| - 1] == hex;
    forall i | |prefix| - 65 <= i < |prefix| - 1 ensures IsLowerHex(prefix[i]) {
      assert prefix[i] == hex[i - |head|];
    }
  }

  /** Two keys with the same platform, machine and cache version share a
      prefix only if their package lists hash to the same digest. */
  lemma PrefixDeterminesDigest(version: string, p1: seq<string>, p2: seq<string>, platform: string,
                               machine: string, d1: string, d2: string, sha256: seq<byte> -> Digest)
    requires CalculateCacheKey(version, p1, platform, machine, d1, sha256).prefix
          == CalculateCacheKey(version, p2, platform, machine, d2, sha256).prefix
    ensures sha256(HashInput(p1)) == sha256(HashInput(p2))
  {
  }

  /** Package lists of non-empty, comma-free names are told apart by the
      bytes that are hashed, so equal keys mean equal lists unless SHA-256
      collides. */
  lemma HashInputInjective(p1: seq<string>, p2: seq<string>)
    requires forall p | p in p1 :: p != "" && ',' !in p
    requires forall p | p in p2 :: p != "" && ',' !in p
    requires HashInput(p1) == HashInput(p2)
    ensures p1 == p2
  {
    Utf8.EncodeInjective(Join(p1, ","), Join(p2, ","));
    if |p1| == 0 || |p2| == 0 {
      JoinOfNonEmpty(p1);
      JoinOfNonEmpty(p2);
    } else {
      JoinInjective(p1, p2, ',');
    }
  }

  lemma JoinOfNonEmpty(ps: seq<string>)
    requires forall p | p in ps :: p != ""
    ensures |ps| > 0 ==> |Join(ps, ",")| > 0
  {
    if |ps| > 1 {
      assert ps[0] in ps;
      assert Join(ps, ",") == ps[0] + "," + Join(ps[1..], ",");
    } else if |ps| == 1 {
      assert ps[0] in ps;
    }
  }

  /** A name containing a comma is hashed like the two names on either side
      of it: the packages `a,b` and `a b` get the same key. */
  lemma CommaCollision()
    ensures HashInput(["a,b"]) == HashInput(["a", "b"])
  {
    assert Join(["a", "b"], ",") == "a,b";
  }
}

/** Torrent identities in magnet links: the parser (services/app/adapters/qbittorrent.py)
    and the printer (services/app/adapters/audiobookbay.py). */
module Magnets {
  import opened Outcomes
  import opened QueryStrings
  import opened Ordering

  datatype Kind = V1 | V2

  /** A torrent identity; the digest is lower-case hexadecimal. */
  datatype Identity = Identity(kind: Kind, digest: string)

  type Bits = seq<bool>

  // ---------------------------------------------------------------- spellings of a digest

  function LowerChar(ch: char): char {
    if 'A' <= ch <= 'Z' then (ch as int - 'A' as int + 'a' as int) as char else ch
  }

  function Lower(text: string): string {
    seq(|text|, i requires 0 <= i < |text| => LowerChar(text[i]))
  }

  predicate AllHex(text: string) {
    forall i :: 0 <= i < |text| ==> IsHex(text[i])
  }

  predicate IsBase32(ch: char) {
    'a' <= ch <= 'z' || 'A' <= ch <= 'Z' || '2' <= ch <= '7'
  }

  predicate AllBase32(text: string) {
    forall i :: 0 <= i < |text| ==> IsBase32(text[i])
  }

  /** The alphabet of RFC 4648 section 6, in either case. */
  function Base32Value(ch: char): (n: nat)
    requires IsBase32(ch)
    ensures n < 32
  {
    if '2' <= ch <= '7' then ch as int - '2' as int + 26
    else LowerChar(ch) as int - 'a' as int
  }

  function LowerHex(n: nat): (ch: char)
    requires n < 16
    ensures IsHex(ch) && HexValue(ch) == n && LowerChar(ch) == ch && IsByte(ch)
  {
    if n < 10 then '0' + n as char else 'a' + (n - 10) as char
  }

  function FourBits(n: nat): Bits
    requires n < 16
  {
    [n / 8 == 1, n / 4 % 2 == 1, n / 2 % 2 == 1, n % 2 == 1]
  }

  function FiveBits(n: nat): Bits
    requires n < 32
  {
    [n / 16 == 1] + FourBits(n % 16)
  }

  function Bit(b: bool): nat {
    if b then 1 else 0
  }

  function Nibble(bits: Bits): (n: nat)
    requires |bits| == 4
    ensures n < 16
  {
    8 * Bit(bits[0]) + 4 * Bit(bits[1]) + 2 * Bit(bits[2]) + Bit(bits[3])
  }

  /** The bits a hexadecimal text stands for. */
  function HexBits(text: string): (bits: Bits)
    requires AllHex(text)
    ensures |bits| == 4 * |text|
  {
    if text == [] then [] else FourBits(HexValue(text[0])) + HexBits(text[1..])
  }

  /** The bits a base-32 text stands for. */
  function Base32Bits(text: string): (bits: Bits)
    requires AllBase32(text)
    ensures |bits| == 5 * |text|
  {
    if text == [] then [] else FiveBits(Base32Value(text[0])) + Base32Bits(text[1..])
  }

  /** The lower-case hexadecimal text of the bits, as bytes.hex() prints it. */
  function HexText(bits: Bits): (text: string)
    requires |bits| % 4 == 0
    ensures AllHex(text) && 4 * |text| == |bits|
    decreases |bits|
  {
    if bits == [] then [] else [LowerHex(Nibble(bits[..4]))] + HexText(bits[4..])
  }

  lemma NibbleOfBits(n: nat)
    requires n < 16
    ensures Nibble(FourBits(n)) == n
  {
  }

  lemma BitsOfNibble(bits: Bits)
    requires |bits| == 4
    ensures FourBits(Nibble(bits)) == bits
  {
  }

  lemma LowerHexOf(ch: char)
    requires IsHex(ch)
    ensures LowerHex(HexValue(ch)) == LowerChar(ch)
  {
  }

  lemma {:induction false} HexBitsOfText(bits: Bits)
    requires |bits| % 4 == 0
    ensures HexBits(HexText(bits)) == bits
    decreases |bits|
  {
    if bits != [] {
      HexBitsOfText(bits[4..]);
      BitsOfNibble(bits[..4]);
      assert HexText(bits)[1..] == HexText(bits[4..]);
      assert bits == bits[..4] + bits[4..];
    }
  }

  lemma {:induction false} HexTextOfBits(text: string)
    requires AllHex(text)
    ensures HexText(HexBits(text)) == Lower(text)
  {
    if text != [] {
      HexTextOfBits(text[1..]);
      NibbleOfBits(HexValue(text[0]));
      LowerHexOf(text[0]);
      var bits := HexBits(text);
      assert bits[..4] == FourBits(HexValue(text[0])) && bits[4..] == HexBits(text[1..]);
      assert Lower(text) == [LowerChar(text[0])] + Lower(text[1..]);
    }
  }

  /** The hash a v1 digest spells: thirty-two base-32 or forty hexadecimal characters. */
  function DigestBits(digest: string): (bits: Option<Bits>)
    ensures bits.Some? ==> |bits.value| == 160
  {
    if |digest| == 32 && AllBase32(digest) then Some(Base32Bits(digest))
    else if |digest| == 40 && AllHex(digest) then Some(HexBits(digest))
    else None
  }

  const BTIH := "urn:btih:"
  const BTMH := "urn:btmh:1220"

  predicate HasPrefix(text: string, prefix: string) {
    |prefix| <= |text| && Lower(text[..|prefix|]) == prefix
  }

  /** One `xt` value: a base-32 digest is converted, then the shape is checked. */
  function Identify(xt: string): (r: Option<Identity>)
    ensures r.Some? ==> Canonical(r.value)
  {
    if HasPrefix(xt, BTIH) then
      var digest := xt[|BTIH|..];
      var hex := if |digest| == 32 && AllBase32(digest) then HexText(Base32Bits(digest)) else digest;
      LowerKeepsHex(hex);
      if |hex| == 40 && AllHex(hex) then Some(Identity(V1, Lower(hex))) else None
    else if HasPrefix(xt, BTMH) then
      var digest := xt[|BTMH|..];
      LowerKeepsHex(digest);
      if |digest| == 64 && AllHex(digest) then Some(Identity(V2, Lower(digest))) else None
    else None
  }

  /** A digest of the right length in lower-case hexadecimal. */
  predicate Canonical(id: Identity) {
    |id.digest| == (if id.kind == V1 then 40 else 64) && AllHex(id.digest) && Lower(id.digest) == id.digest
  }

  lemma LowerKeepsHex(text: string)
    ensures AllHex(text) ==> AllHex(Lower(text))
    ensures Lower(Lower(text)) == Lower(text) && |Lower(text)| == |text|
  {
  }

  /** A v1 digest is accepted exactly when it spells a hash, and two digests, however
      spelled, give one identity exactly when they spell the same hash. */
  lemma SpellingsCollapse(a: string, b: string)
    ensures Identify(BTIH + a).Some? <==> DigestBits(a).Some?
    ensures DigestBits(a).Some? && DigestBits(b).Some? ==>
              (Identify(BTIH + a) == Identify(BTIH + b) <==> DigestBits(a) == DigestBits(b))
  {
    Spelled(a);
    Spelled(b);
    if DigestBits(a).Some? && DigestBits(b).Some? {
      HexBitsOfText(DigestBits(a).value);
      HexBitsOfText(DigestBits(b).value);
    }
  }

  lemma Spelled(a: string)
    ensures Identify(BTIH + a)
         == if DigestBits(a).Some? then Some(Identity(V1, HexText(DigestBits(a).value))) else None
  {
    assert (BTIH + a)[|BTIH|..] == a && (BTIH + a)[..|BTIH|] == BTIH;
    assert Lower(BTIH) == BTIH;
    if |a| == 32 && AllBase32(a) {
      HexTextOfBits(HexText(Base32Bits(a)));
      HexBitsOfText(Base32Bits(a));
    } else if |a| == 40 && AllHex(a) {
      HexTextOfBits(a);
    }
  }

  /** The number that five bits are, most significant first. */
  function Group(bits: Bits): (n: nat)
    requires |bits| == 5
    ensures n < 32
  {
    16 * Bit(bits[0]) + 8 * Bit(bits[1]) + 4 * Bit(bits[2]) + 2 * Bit(bits[3]) + Bit(bits[4])
  }

  /** Base-32 printing as RFC 4648 section 6 gives it, in lower case. */
  function Base32Text(bits: Bits): (text: string)
    requires |bits| % 5 == 0
    ensures |bits| == 5 * |text|
    decreases |bits|
  {
    if bits == [] then [] else ["abcdefghijklmnopqrstuvwxyz234567"[Group(bits[..5])]] + Base32Text(bits[5..])
  }

  function UpperChar(ch: char): char {
    if 'a' <= ch <= 'z' then (ch as int - 'a' as int + 'A' as int) as char else ch
  }

  function Upper(text: string): string {
    seq(|text|, i requires 0 <= i < |text| => UpperChar(text[i]))
  }

  lemma AlphabetValue(n: nat)
    requires n < 32
    ensures var ch := "abcdefghijklmnopqrstuvwxyz234567"[n];
            IsBase32(ch) && Base32Value(ch) == n && IsBase32(UpperChar(ch)) && Base32Value(UpperChar(ch)) == n
  {
    var alphabet := "abcdefghijklmnopqrstuvwxyz234567";
    assert n < 26 ==> alphabet[n] as int == 'a' as int + n;
    assert n >= 26 ==> alphabet[n] as int == '2' as int + n - 26;
  }

  lemma BitsOfGroup(bits: Bits)
    requires |bits| == 5
    ensures FiveBits(Group(bits)) == bits
  {
    assert Group(bits) % 16 == Nibble(bits[1..]);
    BitsOfNibble(bits[1..]);
    assert bits == [bits[0]] + bits[1..];
  }

  /** Reading what was printed, in either case, gives the bits. */
  lemma {:induction false} Base32BitsOfText(bits: Bits)
    requires |bits| % 5 == 0
    ensures var text := Base32Text(bits);
            && AllBase32(text) && AllBase32(Upper(text))
            && Base32Bits(text) == bits && Base32Bits(Upper(text)) == bits
    decreases |bits|
  {
    if bits != [] {
      var text, rest := Base32Text(bits), Base32Text(bits[5..]);
      Base32BitsOfText(bits[5..]);
      AlphabetValue(Group(bits[..5]));
      BitsOfGroup(bits[..5]);
      assert text == [text[0]] + rest && text[1..] == rest && Upper(text)[1..] == Upper(rest);
      assert bits == bits[..5] + bits[5..];
    }
  }

  /** Hexadecimal printing with the digits spelled out. */
  function HexSpelled(bits: Bits): (text: string)
    requires |bits| % 4 == 0
    ensures 4 * |text| == |bits|
    decreases |bits|
  {
    if bits == [] then []
    else
      var digit := "0123456789abcdef"[8 * Bit(bits[0]) + 4 * Bit(bits[1]) + 2 * Bit(bits[2]) + Bit(bits[3])];
      [digit] + HexSpelled(bits[4..])
  }

  lemma HexDigit(n: nat)
    requires n < 16
    ensures LowerHex(n) == "0123456789abcdef"[n]
  {
  }

  lemma {:induction false} HexTextIsSpelled(bits: Bits)
    requires |bits| % 4 == 0
    ensures HexText(bits) == HexSpelled(bits)
    decreases |bits|
  {
    if bits != [] {
      HexDigit(Nibble(bits[..4]));
      HexTextIsSpelled(bits[4..]);
    }
  }

  lemma LowerOfHex(bits: Bits)
    requires |bits| % 4 == 0
    ensures var text := HexSpelled(bits);
            AllHex(text) && AllHex(Upper(text)) && Lower(text) == text && Lower(Upper(text)) == text
  {
    var text := HexText(bits);
    HexTextIsSpelled(bits);
    HexBitsOfText(bits);
    UpperHexBits(text);
    HexTextOfBits(text);
    HexTextOfBits(Upper(text));
  }

  /** A 160-bit hash printed in base 32, in either case, or in hexadecimal, in either
      case, is one identity: its forty lower-case hexadecimal digits. */
  lemma PrintedHashes(bits: Bits)
    requires |bits| == 160
    ensures Identify("urn:btih:" + Base32Text(bits)) == Some(Identity(V1, HexSpelled(bits)))
    ensures Identify("urn:btih:" + Upper(Base32Text(bits))) == Some(Identity(V1, HexSpelled(bits)))
    ensures Identify("urn:btih:" + HexSpelled(bits)) == Some(Identity(V1, HexSpelled(bits)))
    ensures Identify("urn:btih:" + Upper(HexSpelled(bits))) == Some(Identity(V1, HexSpelled(bits)))
  {
    Base32BitsOfText(bits);
    HexTextIsSpelled(bits);
    HexBitsOfText(bits);
    UpperHexBits(HexText(bits));
    Spelled(Base32Text(bits));
    Spelled(Upper(Base32Text(bits)));
    Spelled(HexText(bits));
    Spelled(Upper(HexText(bits)));
  }

  lemma {:induction false} UpperHexBits(text: string)
    requires AllHex(text)
    ensures AllHex(Upper(text)) && HexBits(Upper(text)) == HexBits(text)
  {
    if text != [] {
      UpperHexBits(text[1..]);
      assert Upper(text)[1..] == Upper(text[1..]);
    }
  }

  lemma V2Of(text: string)
    requires |text| == 64 && AllHex(text)
    ensures Identify("urn:btmh:1220" + text) == Some(Identity(V2, Lower(text)))
  {
    var xt := "urn:btmh:1220" + text;
    assert xt[|BTMH|..] == text && xt[..|BTMH|] == BTMH;
    assert Lower(BTMH) == BTMH;
    assert xt[..|BTIH|][6] == 'm' && Lower(xt[..|BTIH|])[6] == 'm';
  }

  /** A 256-bit hash is printed only in hexadecimal, behind its multihash prefix. */
  lemma PrintedV2(bits: Bits)
    requires |bits| == 256
    ensures Identify("urn:btmh:1220" + HexSpelled(bits)) == Some(Identity(V2, HexSpelled(bits)))
    ensures Identify("urn:btmh:1220" + Upper(HexSpelled(bits))) == Some(Identity(V2, HexSpelled(bits)))
  {
    var text := HexText(bits);
    HexTextIsSpelled(bits);
    HexBitsOfText(bits);
    UpperHexBits(text);
    HexTextOfBits(text);
    HexTextOfBits(Upper(text));
    V2Of(text);
    V2Of(Upper(text));
  }

  // ---------------------------------------------------------------- parsing

  const MAX_LENGTH := 32768
  const MAX_FIELDS := 100
  const SCHEME := "magnet:?"

  function Find(text: string, ch: char): nat
    ensures Find(text, ch) <= |text|
    ensures Find(text, ch) < |text| ==> text[Find(text, ch)] == ch
    ensures forall i :: 0 <= i < Find(text, ch) ==> text[i] != ch
  {
    if text == [] || text[0] == ch then 0 else 1 + Find(text[1..], ch)
  }

  /** The fields of a well-formed magnet link. */
  function ReadMagnet(value: string): Option<seq<Pair>> {
    if |value| > MAX_LENGTH || !(forall i :: 0 <= i < |value| ==> 33 <= value[i] as int && value[i] as int != 127)
        || !(SCHEME <= value)
    then None
    else
      var rest := value[|SCHEME|..];
      var k := Find(rest, '#');
      if k + 1 < |rest| then None else ParseQuery(rest[..k], MAX_FIELDS)
  }

  function Identities(xts: seq<string>): seq<Option<Identity>> {
    seq(|xts|, i requires 0 <= i < |xts| => Identify(xts[i]))
  }

  /** Every value is an identity, and there is at most one of each kind. */
  ghost predicate Coherent(ids: seq<Option<Identity>>) {
    && (forall i :: 0 <= i < |ids| ==> ids[i].Some?)
    && (forall i, j :: 0 <= i < j < |ids| && ids[i].value.kind == ids[j].value.kind ==> ids[i] == ids[j])
  }

  ghost function Digests(ids: seq<Option<Identity>>): set<string> {
    set i | 0 <= i < |ids| && ids[i].Some? :: ids[i].value.digest
  }

  /** What a magnet link identifies. */
  ghost function HashesOf(value: string): Option<set<string>> {
    match ReadMagnet(value)
    case None => None
    case Some(pairs) =>
      var ids := Identities(Values(pairs, "xt"));
      if ids == [] || !Coherent(ids) then None else Some(Digests(ids))
  }

  /** The digests seen so far, by kind. */
  ghost predicate Indexes(byKind: map<Kind, string>, ids: seq<Option<Identity>>) {
    && (forall i :: 0 <= i < |ids| ==>
          && ids[i].Some? && ids[i].value.kind in byKind
          && byKind[ids[i].value.kind] == ids[i].value.digest)
    && (forall kind :: kind in byKind ==> exists i :: 0 <= i < |ids| && ids[i] == Some(Identity(kind, byKind[kind])))
  }

  lemma IndexNext(byKind: map<Kind, string>, ids: seq<Option<Identity>>, id: Identity)
    requires Indexes(byKind, ids)
    ensures id.kind in byKind && byKind[id.kind] != id.digest ==> !Coherent(ids + [Some(id)])
    ensures id.kind !in byKind || byKind[id.kind] == id.digest ==>
              Indexes(byKind[id.kind := id.digest], ids + [Some(id)])
    ensures Digests(ids + [Some(id)]) == Digests(ids) + {id.digest}
  {
    var longer := ids + [Some(id)];
    assert longer[|ids|] == Some(id) && forall i :: 0 <= i < |ids| ==> longer[i] == ids[i];
    var next := byKind[id.kind := id.digest];
    forall kind | kind in next && (id.kind !in byKind || byKind[id.kind] == id.digest)
      ensures exists i :: 0 <= i < |longer| && longer[i] == Some(Identity(kind, next[kind]))
    {
      if kind == id.kind {
        assert longer[|ids|] == Some(Identity(kind, next[kind]));
      } else {
        var i :| 0 <= i < |ids| && ids[i] == Some(Identity(kind, byKind[kind]));
        assert longer[i] == Some(Identity(kind, next[kind]));
      }
    }
  }

  lemma PrefixIncoherent(ids: seq<Option<Identity>>, k: nat)
    requires k <= |ids| && !Coherent(ids[..k])
    ensures !Coherent(ids)
  {
  }

  method MagnetHashes(value: string) returns (r: Option<set<string>>)
    ensures r == HashesOf(value)
  {
    var pairs := ReadMagnet(value);
    if pairs.None? {
      return None;
    }
    var xts := Values(pairs.value, "xt");
    ghost var ids := Identities(xts);
    var identities: set<string> := {};
    var byKind: map<Kind, string> := map[];
    for k := 0 to |xts|
      invariant Indexes(byKind, ids[..k])
      invariant identities == Digests(ids[..k])
    {
      var id := Identify(xts[k]);
      assert id == ids[k] && ids[..k + 1] == ids[..k] + [id];
      if id.None? {
        return None;
      }
      var kind, digest := id.value.kind, id.value.digest;
      IndexNext(byKind, ids[..k], id.value);
      if kind in byKind && byKind[kind] != digest {
        PrefixIncoherent(ids, k + 1);
        return None;
      }
      byKind := byKind[kind := digest];
      identities := identities + {digest};
    }
    assert ids[..|ids|] == ids;
    r := if xts == [] then None else Some(identities);
  }

  // ---------------------------------------------------------------- printing

  function Print(id: Identity): string {
    (if id.kind == V1 then BTIH else BTMH) + id.digest
  }

  function Tagged(key: string, texts: seq<string>): seq<Pair> {
    seq(|texts|, i requires 0 <= i < |texts| => (key, texts[i]))
  }

  const MAX_TRACKERS := 20

  function FirstTrackers(trackers: set<string>): seq<string> {
    var sorted := SortedSet(trackers);
    if |sorted| > MAX_TRACKERS then sorted[..MAX_TRACKERS] else sorted
  }

  function Pairs(hashes: set<string>, trackers: set<string>): seq<Pair> {
    Tagged("xt", SortedSet(hashes)) + Tagged("tr", FirstTrackers(trackers))
  }

  ghost predicate Usable(texts: set<string>) {
    forall t :: t in texts ==> t != [] && AllBytes(t)
  }

  lemma TaggedEncode(key: string, texts: seq<string>)
    requires AllBytes(key) && forall i :: 0 <= i < |texts| ==> texts[i] != [] && AllBytes(texts[i])
    ensures Encodable(Tagged(key, texts))
  {
    forall i | 0 <= i < |texts| ensures AllBytes(Tagged(key, texts)[i].1) {
      assert Tagged(key, texts)[i] == (key, texts[i]);
    }
  }

  lemma SortedUsable(texts: set<string>)
    requires Usable(texts)
    ensures forall i :: 0 <= i < |SortedSet(texts)| ==> SortedSet(texts)[i] != [] && AllBytes(SortedSet(texts)[i])
  {
    var list := SortedSet(texts);
    forall i | 0 <= i < |list| ensures list[i] != [] && AllBytes(list[i]) {
      assert list[i] in list;
    }
  }

  lemma PairsEncode(hashes: set<string>, trackers: set<string>)
    requires Usable(hashes) && Usable(trackers)
    ensures Encodable(Pairs(hashes, trackers))
  {
    SortedUsable(hashes);
    SortedUsable(trackers);
    TaggedEncode("xt", SortedSet(hashes));
    TaggedEncode("tr", FirstTrackers(trackers));
    EncodableJoin(Tagged("xt", SortedSet(hashes)), Tagged("tr", FirstTrackers(trackers)));
  }

  lemma EncodableJoin(a: seq<Pair>, b: seq<Pair>)
    requires Encodable(a) && Encodable(b)
    ensures Encodable(a + b)
  {
  }

  /** A magnet link of canonical identities and allowed trackers; sorting makes it a
      function of the two sets. */
  function Printed(hashes: set<string>, trackers: set<string>): string
    requires Usable(hashes) && Usable(trackers)
  {
    PairsEncode(hashes, trackers);
    SCHEME + EncodeQuery(Pairs(hashes, trackers))
  }

  // ---------------------------------------------------------------- the printer's partner

  lemma {:induction false} ValuesJoin(a: seq<Pair>, b: seq<Pair>, key: string)
    ensures Values(a + b, key) == Values(a, key) + Values(b, key)
  {
    if a == [] {
      assert a + b == b;
    } else {
      ValuesJoin(a[1..], b, key);
      assert (a + b)[1..] == a[1..] + b;
    }
  }

  lemma {:induction false} ValuesTagged(key: string, texts: seq<string>, asked: string)
    ensures Values(Tagged(key, texts), asked) == if key == asked then texts else []
  {
    if texts != [] {
      ValuesTagged(key, texts[1..], asked);
      assert Tagged(key, texts)[1..] == Tagged(key, texts[1..]);
    }
  }

  lemma ReadScheme(query: string)
    requires Printable(query)
    ensures ReadMagnet(SCHEME + query) == if |SCHEME + query| <= MAX_LENGTH then ParseQuery(query, MAX_FIELDS) else None
  {
    var value := SCHEME + query;
    assert value[|SCHEME|..] == query && value[..|SCHEME|] == SCHEME;
    assert Find(query, '#') == |query| && query[..|query|] == query;
    forall i | 0 <= i < |value| ensures 33 <= value[i] as int && value[i] as int != 127 {
      if i >= |SCHEME| {
        assert value[i] == query[i - |SCHEME|];
      }
    }
  }

  lemma PairsValues(hashes: seq<string>, trackers: seq<string>)
    ensures Values(Tagged("xt", hashes) + Tagged("tr", trackers), "xt") == hashes
  {
    ValuesJoin(Tagged("xt", hashes), Tagged("tr", trackers), "xt");
    ValuesTagged("xt", hashes, "xt");
    ValuesTagged("tr", trackers, "xt");
  }

  lemma PrintedReads(hashes: set<string>, trackers: set<string>)
    requires Usable(hashes) && Usable(trackers)
    ensures var pairs := Pairs(hashes, trackers);
            ReadMagnet(Printed(hashes, trackers))
            == if |Printed(hashes, trackers)| <= MAX_LENGTH && |pairs| <= MAX_FIELDS then Some(pairs) else None
    ensures Values(Pairs(hashes, trackers), "xt") == SortedSet(hashes)
  {
    var pairs := Pairs(hashes, trackers);
    PairsEncode(hashes, trackers);
    EncodedIsPrintable(pairs);
    ParseEncoded(pairs, MAX_FIELDS);
    ReadScheme(EncodeQuery(pairs));
    PairsValues(SortedSet(hashes), FirstTrackers(trackers));
  }

  ghost function Prints(ids: set<Identity>): set<string> {
    set id | id in ids :: Print(id)
  }

  ghost function DigestsOf(ids: set<Identity>): set<string> {
    set id | id in ids :: id.digest
  }

  ghost predicate OneOfEach(ids: set<Identity>) {
    forall a, b :: a in ids && b in ids && a.kind == b.kind ==> a == b
  }

  ghost predicate AllCanonical(ids: set<Identity>) {
    forall id :: id in ids ==> Canonical(id)
  }

  /** The parser reads back what the printer writes. */
  lemma IdentifyPrint(id: Identity)
    requires Canonical(id)
    ensures Identify(Print(id)) == Some(id)
  {
    var xt := Print(id);
    assert Lower(BTIH) == BTIH && Lower(BTMH) == BTMH;
    if id.kind == V1 {
      assert xt[..|BTIH|] == BTIH && xt[|BTIH|..] == id.digest;
    } else {
      assert xt[..|BTMH|] == BTMH && xt[|BTMH|..] == id.digest;
      assert Lower(xt[..|BTIH|])[6] == 'm' && BTIH[6] == 'i';
    }
  }

  lemma HexIsBytes(text: string)
    requires AllHex(text)
    ensures AllBytes(text)
  {
  }

  lemma PrintsUsable(ids: set<Identity>)
    requires AllCanonical(ids)
    ensures Usable(Prints(ids))
  {
    forall id | id in ids ensures Print(id) != [] && AllBytes(Print(id)) {
      HexIsBytes(id.digest);
    }
  }

  lemma OneOfEachIsSmall(ids: set<Identity>)
    requires OneOfEach(ids)
    ensures |ids| <= 2
  {
    var v1 := set id | id in ids && id.kind == V1;
    var v2 := set id | id in ids && id.kind == V2;
    assert ids == v1 + v2;
    AtMostOne(v1);
    AtMostOne(v2);
  }

  lemma AtMostOne(ids: set<Identity>)
    requires forall a, b :: a in ids && b in ids ==> a == b
    ensures |ids| <= 1
  {
    if ids != {} {
      var a :| a in ids;
      assert ids == {a};
    }
  }

  lemma {:induction false} FewPrints(ids: set<Identity>)
    ensures |Prints(ids)| <= |ids|
  {
    if ids != {} {
      var a :| a in ids;
      FewPrints(ids - {a});
      assert Prints(ids) == Prints(ids - {a}) + {Print(a)};
    } else {
      assert Prints(ids) == {};
    }
  }

  /** The sorted printed identities read back as the identities. */
  lemma SortedIdentities(ids: set<Identity>)
    requires AllCanonical(ids)
    ensures Spells(Identities(SortedSet(Prints(ids))), ids)
  {
    var xts := SortedSet(Prints(ids));
    var read := Identities(xts);
    forall i | 0 <= i < |read| ensures read[i].Some? && read[i].value in ids {
      assert xts[i] in xts;
      var id :| id in ids && Print(id) == xts[i];
      IdentifyPrint(id);
    }
    forall id | id in ids ensures Some(id) in read {
      assert Print(id) in xts;
      var i :| 0 <= i < |xts| && xts[i] == Print(id);
      IdentifyPrint(id);
      assert read[i] == Some(id);
    }
  }

  ghost predicate Spells(read: seq<Option<Identity>>, ids: set<Identity>) {
    && (forall i :: 0 <= i < |read| ==> read[i].Some? && read[i].value in ids)
    && (forall id :: id in ids ==> Some(id) in read)
  }

  lemma SpelledIdentities(read: seq<Option<Identity>>, ids: set<Identity>)
    requires Spells(read, ids)
    ensures ids != {} ==> read != []
    ensures Digests(read) == DigestsOf(ids)
    ensures Coherent(read) <==> OneOfEach(ids)
  {
    forall d | d in DigestsOf(ids) ensures d in Digests(read) {
      var id :| id in ids && id.digest == d;
      var i :| 0 <= i < |read| && read[i] == Some(id);
    }
    if Coherent(read) {
      forall a, b | a in ids && b in ids && a.kind == b.kind ensures a == b {
        var i :| 0 <= i < |read| && read[i] == Some(a);
        var j :| 0 <= j < |read| && read[j] == Some(b);
      }
    }
    if ids != {} {
      var id :| id in ids;
      assert Some(id) in read;
    }
  }

  /** What the printer writes identifies exactly what it was given, provided there is
      at most one identity of each kind and the link is not too long; otherwise the
      parser refuses it. */
  lemma PrintedIdentifies(ids: set<Identity>, trackers: set<string>)
    requires ids != {} && AllCanonical(ids) && Usable(Prints(ids)) && Usable(trackers)
    ensures var magnet := Printed(Prints(ids), trackers);
            HashesOf(magnet) == if OneOfEach(ids) && |magnet| <= MAX_LENGTH then Some(DigestsOf(ids)) else None
  {
    SortedIdentities(ids);
    SpelledIdentities(Identities(SortedSet(Prints(ids))), ids);
    PrintedReads(Prints(ids), trackers);
    if OneOfEach(ids) {
      OneOfEachIsSmall(ids);
      FewPrints(ids);
    }
  }

  // ---------------------------------------------------------------- a posting

  /** The two-cell table rows of a posting, by their label. */
  datatype Cell = InfoHash(value: string) | TrackerCell(value: string) | OtherCell

  function HexIdentity(value: string): (r: Option<Identity>)
    ensures r.Some? ==> Canonical(r.value)
  {
    LowerKeepsHex(value);
    if AllHex(value) && |value| == 40 then Some(Identity(V1, Lower(value)))
    else if AllHex(value) && |value| == 64 then Some(Identity(V2, Lower(value)))
    else None
  }

  ghost function CellIds(cell: Cell): set<Identity> {
    if cell.InfoHash? && HexIdentity(cell.value).Some? then {HexIdentity(cell.value).value} else {}
  }

  ghost function IdSet(ids: seq<Option<Identity>>): set<Identity> {
    set i | 0 <= i < |ids| && ids[i].Some? :: ids[i].value
  }

  /** A link counts only when it parses on its own. */
  ghost function LinkIds(link: string): set<Identity> {
    if HashesOf(link).None? then {} else IdSet(Identities(Values(ReadMagnet(link).value, "xt")))
  }

  /** Everything the rows and links of a posting identify, in whatever order. */
  ghost function Posted(cells: seq<Cell>, links: seq<string>): set<Identity> {
    (set c, id | c in cells && id in CellIds(c) :: id) + (set l, id | l in links && id in LinkIds(l) :: id)
  }

  ghost function CellTrackers(cell: Cell, tracker: string -> Option<string>): set<string> {
    if cell.TrackerCell? && tracker(cell.value).Some? then {tracker(cell.value).value} else {}
  }

  ghost function Allowed(texts: seq<string>, tracker: string -> Option<string>): set<string> {
    set t | t in texts && tracker(t).Some? :: tracker(t).value
  }

  ghost function LinkTrackers(link: string, tracker: string -> Option<string>): set<string> {
    if HashesOf(link).None? then {} else Allowed(Values(ReadMagnet(link).value, "tr"), tracker)
  }

  ghost function PostedTrackers(cells: seq<Cell>, links: seq<string>, tracker: string -> Option<string>): set<string> {
    (set c, t | c in cells && t in CellTrackers(c, tracker) :: t)
        + (set l, t | l in links && t in LinkTrackers(l, tracker) :: t)
  }

  /** The spelling under which a link's identity is collected. */
  function Collected(xt: string): string
    requires Identify(xt).Some?
  {
    if HasPrefix(xt, BTIH) then
      var digest := xt[|BTIH|..];
      BTIH + Lower(if |digest| == 32 && AllBase32(digest) then HexText(Base32Bits(digest)) else digest)
    else Lower(xt)
  }

  lemma CollectedIsPrint(xt: string)
    requires Identify(xt).Some?
    ensures Collected(xt) == Print(Identify(xt).value)
  {
    if !HasPrefix(xt, BTIH) {
      assert xt == xt[..|BTMH|] + xt[|BTMH|..];
      assert Lower(xt) == Lower(xt[..|BTMH|]) + Lower(xt[|BTMH|..]);
    }
  }

  lemma PrintsJoin(a: set<Identity>, b: set<Identity>)
    ensures Prints(a + b) == Prints(a) + Prints(b)
  {
  }

  ghost predicate Guarded(tracker: string -> Option<string>) {
    forall text :: tracker(text).Some? ==> tracker(text).value != [] && AllBytes(tracker(text).value)
  }

  method CollectCells(cells: seq<Cell>, tracker: string -> Option<string>)
    returns (hashes: set<string>, trackers: set<string>)
    ensures hashes == Prints(Posted(cells, [])) && trackers == PostedTrackers(cells, [], tracker)
  {
    hashes, trackers := {}, {};
    for k := 0 to |cells|
      invariant hashes == Prints(Posted(cells[..k], []))
      invariant trackers == PostedTrackers(cells[..k], [], tracker)
    {
      CellsGrow(cells, k, tracker);
      PrintsJoin(Posted(cells[..k], []), CellIds(cells[k]));
      match cells[k]
      case InfoHash(value) =>
        var id := HexIdentity(value);
        if id.Some? {
          assert Prints({id.value}) == {Print(id.value)};
          hashes := hashes + {Print(id.value)};
        }
      case TrackerCell(value) =>
        if tracker(value).Some? {
          trackers := trackers + {tracker(value).value};
        }
      case OtherCell =>
    }
    assert cells[..|cells|] == cells;
  }

  lemma CellsGrow(cells: seq<Cell>, k: nat, tracker: string -> Option<string>)
    requires k < |cells|
    ensures Posted(cells[..k + 1], []) == Posted(cells[..k], []) + CellIds(cells[k])
    ensures PostedTrackers(cells[..k + 1], [], tracker)
              == PostedTrackers(cells[..k], [], tracker) + CellTrackers(cells[k], tracker)
  {
    assert cells[..k + 1] == cells[..k] + [cells[k]];
  }

  method CollectLink(link: string, tracker: string -> Option<string>)
    returns (hashes: set<string>, trackers: set<string>)
    ensures hashes == Prints(LinkIds(link)) && trackers == LinkTrackers(link, tracker)
  {
    hashes, trackers := {}, {};
    var parsed := MagnetHashes(link);
    if parsed.None? {
      return;
    }
    var args := ReadMagnet(link).value;
    var xts := Values(args, "xt");
    ghost var ids := Identities(xts);
    for k := 0 to |xts|
      invariant hashes == Prints(IdSet(ids[..k]))
    {
      assert ids[k].Some?;
      IdSetGrows(ids, k);
      PrintsJoin(IdSet(ids[..k]), {ids[k].value});
      CollectedIsPrint(xts[k]);
      assert Prints({ids[k].value}) == {Print(ids[k].value)};
      hashes := hashes + {Collected(xts[k])};
    }
    assert ids[..|ids|] == ids;
    trackers := CollectTrackers(Values(args, "tr"), tracker);
  }

  method CollectTrackers(texts: seq<string>, tracker: string -> Option<string>) returns (trackers: set<string>)
    ensures trackers == Allowed(texts, tracker)
  {
    trackers := {};
    for k := 0 to |texts|
      invariant trackers == Allowed(texts[..k], tracker)
    {
      assert texts[..k + 1] == texts[..k] + [texts[k]];
      if tracker(texts[k]).Some? {
        trackers := trackers + {tracker(texts[k]).value};
      }
    }
    assert texts[..|texts|] == texts;
  }

  lemma IdSetGrows(ids: seq<Option<Identity>>, k: nat)
    requires k < |ids| && ids[k].Some?
    ensures IdSet(ids[..k + 1]) == IdSet(ids[..k]) + {ids[k].value}
  {
    var longer := ids[..k + 1];
    assert longer[k] == ids[k] && forall i :: 0 <= i < k ==> longer[i] == ids[..k][i];
  }

  lemma PostedIsUsable(cells: seq<Cell>, links: seq<string>, tracker: string -> Option<string>)
    requires Guarded(tracker)
    ensures AllCanonical(Posted(cells, links)) && Usable(Prints(Posted(cells, links)))
    ensures Usable(PostedTrackers(cells, links, tracker))
  {
    PrintsUsable(Posted(cells, links));
  }

  lemma LinksGrow(cells: seq<Cell>, links: seq<string>, k: nat, tracker: string -> Option<string>)
    requires k < |links|
    ensures Posted(cells, links[..k + 1]) == Posted(cells, links[..k]) + LinkIds(links[k])
    ensures PostedTrackers(cells, links[..k + 1], tracker)
         == PostedTrackers(cells, links[..k], tracker) + LinkTrackers(links[k], tracker)
  {
    assert links[..k + 1] == links[..k] + [links[k]];
  }

  datatype PostError = Conflicting

  /** The only link a posting can give: a function of what it names, not of how. */
  ghost function PostedMagnet(cells: seq<Cell>, links: seq<string>, tracker: string -> Option<string>): string
    requires Guarded(tracker)
  {
    PostedIsUsable(cells, links, tracker);
    Printed(Prints(Posted(cells, links)), PostedTrackers(cells, links, tracker))
  }

  /** The magnet link of a posting. It identifies exactly what the rows and links
      identify, whatever their order and spelling, and has only identities and
      trackers for fields; it is refused exactly when there are two identities of one
      kind or the link would be too long. `tracker` gives an allowed address. */
  method MagnetFromPost(cells: seq<Cell>, links: seq<string>, tracker: string -> Option<string>)
    returns (r: Result<Option<string>, PostError>)
    requires Guarded(tracker)
    ensures r == Ok(None) <==> Posted(cells, links) == {}
    ensures r.Ok? && r.value.Some? ==>
              && r.value.value == PostedMagnet(cells, links, tracker)
              && HashesOf(r.value.value) == Some(DigestsOf(Posted(cells, links)))
              && ReadMagnet(r.value.value).Some?
              && forall pair :: pair in ReadMagnet(r.value.value).value ==> pair.0 in {"xt", "tr"}
    ensures r.Err? <==>
              && Posted(cells, links) != {}
              && (!OneOfEach(Posted(cells, links)) || |PostedMagnet(cells, links, tracker)| > MAX_LENGTH)
  {
    var hashes, trackers := CollectCells(cells, tracker);
    for k := 0 to |links|
      invariant hashes == Prints(Posted(cells, links[..k]))
      invariant trackers == PostedTrackers(cells, links[..k], tracker)
    {
      LinksGrow(cells, links, k, tracker);
      PrintsJoin(Posted(cells, links[..k]), LinkIds(links[k]));
      var more, allowed := CollectLink(links[k], tracker);
      hashes, trackers := hashes + more, trackers + allowed;
    }
    assert links[..|links|] == links;
    ghost var ids := Posted(cells, links);
    assert forall id :: id in ids ==> Print(id) in hashes;
    if hashes == {} {
      return Ok(None);
    }
    PostedIsUsable(cells, links, tracker);
    var result := Printed(hashes, trackers);
    PrintedIdentifies(ids, trackers);
    PrintedReads(hashes, trackers);
    PairKeys(hashes, trackers);
    var check := MagnetHashes(result);
    r := if check.None? then Err(Conflicting) else Ok(Some(result));
  }

  lemma PairKeys(hashes: set<string>, trackers: set<string>)
    ensures forall pair :: pair in Pairs(hashes, trackers) ==> pair.0 in {"xt", "tr"}
  {
  }

  // ---------------------------------------------------------------- spelled out

  /** Which links can be read at all. */
  lemma ReadSpelled(pairs: seq<Pair>)
    requires Encodable(pairs)
    ensures ReadMagnet("magnet:?" + EncodeQuery(pairs))
         == if |EncodeQuery(pairs)| + 8 <= 32768 && |pairs| <= 100 then Some(pairs) else None
  {
    EncodedIsPrintable(pairs);
    ParseEncoded(pairs, 100);
    ReadScheme(EncodeQuery(pairs));
  }

  lemma ReadRefuses(value: string)
    ensures |value| > 32768 ==> ReadMagnet(value).None?
    ensures !("magnet:?" <= value) ==> ReadMagnet(value).None?
    ensures (exists i :: 0 <= i < |value| && (value[i] as int <= 32 || value[i] as int == 127)) ==>
              ReadMagnet(value).None?
    ensures (exists i :: 0 <= i < |value| - 1 && value[i] == '#') ==> ReadMagnet(value).None?
  {
    if "magnet:?" <= value {
      assert forall k :: 0 <= k < 8 ==> value[k] == "magnet:?"[k];
      assert forall i :: 8 <= i < |value| ==> value[|SCHEME|..][i - 8] == value[i];
    }
  }

  /** Every other link is read as its query, whether an empty fragment follows or not. */
  lemma ReadsQuery(query: string, end: string)
    requires forall i :: 0 <= i < |query| ==> '!' <= query[i] && query[i] != '\U{7f}' && query[i] != '#'
    requires end == "" || end == "#"
    ensures ReadMagnet("magnet:?" + (query + end))
         == if 8 + |query| + |end| <= 32768 then ParseQuery(query, 100) else None
  {
    var rest := query + end;
    var value := "magnet:?" + rest;
    assert value[|SCHEME|..] == rest && value[..|SCHEME|] == SCHEME;
    assert rest[..|query|] == query && forall i :: 0 <= i < |query| ==> rest[i] == query[i];
    assert end == "#" ==> rest[|query|] == '#';
    assert Find(rest, '#') == |query|;
    assert forall i :: 0 <= i < |rest| ==> '!' <= rest[i] && rest[i] != '\U{7f}';
    forall i | 0 <= i < |value| ensures 33 <= value[i] as int && value[i] as int != 127 {
      if i >= 8 {
        assert value[i] == rest[i - 8];
      }
    }
  }

  lemma CoherentSpelled(xts: seq<string>)
    ensures Coherent(Identities(xts)) <==>
            && (forall xt :: xt in xts ==> Identify(xt).Some?)
            && forall a, b :: a in xts && b in xts && Identify(a).value.kind == Identify(b).value.kind ==>
                 Identify(a) == Identify(b)
  {
    var ids := Identities(xts);
    assert forall i :: 0 <= i < |ids| ==> ids[i] == Identify(xts[i]) && xts[i] in xts;
    if Coherent(ids) {
      forall a, b | a in xts && b in xts
        ensures Identify(a).Some? && Identify(b).Some?
        ensures Identify(a).value.kind == Identify(b).value.kind ==> Identify(a) == Identify(b)
      {
        var i :| 0 <= i < |xts| && xts[i] == a;
        var j :| 0 <= j < |xts| && xts[j] == b;
      }
    }
  }

  lemma DigestsSpelled(xts: seq<string>, d: string)
    requires forall xt :: xt in xts ==> Identify(xt).Some?
    ensures d in Digests(Identities(xts)) <==> exists xt :: xt in xts && Identify(xt).value.digest == d
  {
    var ids := Identities(xts);
    assert forall i :: 0 <= i < |ids| ==> ids[i] == Identify(xts[i]) && xts[i] in xts;
    if xt :| xt in xts && Identify(xt).value.digest == d {
      var i :| 0 <= i < |xts| && xts[i] == xt;
      assert ids[i] == Identify(xt);
    }
  }

  /** What a readable link identifies: the digests of its `xt` values, when there are some,
      all are identities, and no two of one kind differ. */
  lemma HashesSpelled(pairs: seq<Pair>)
    requires Encodable(pairs) && |EncodeQuery(pairs)| + 8 <= 32768 && |pairs| <= 100
    ensures var xts, hashes := Values(pairs, "xt"), HashesOf("magnet:?" + EncodeQuery(pairs));
            && (hashes.Some? <==>
                  && xts != []
                  && (forall xt :: xt in xts ==> Identify(xt).Some?)
                  && forall a, b :: a in xts && b in xts && Identify(a).value.kind == Identify(b).value.kind ==>
                       Identify(a) == Identify(b))
            && (hashes.Some? ==>
                  forall d :: d in hashes.value <==> exists xt :: xt in xts && Identify(xt).value.digest == d)
  {
    var xts := Values(pairs, "xt");
    ReadSpelled(pairs);
    CoherentSpelled(xts);
    if HashesOf("magnet:?" + EncodeQuery(pairs)).Some? {
      forall d ensures d in Digests(Identities(xts)) <==> exists xt :: xt in xts && Identify(xt).value.digest == d {
        DigestsSpelled(xts, d);
      }
    }
  }

  lemma LowerLetter(k: nat)
    requires k < 26
    ensures LowerChar("ABCDEFGHIJKLMNOPQRSTUVWXYZ"[k]) == "abcdefghijklmnopqrstuvwxyz"[k]
    ensures LowerChar("abcdefghijklmnopqrstuvwxyz"[k]) == "abcdefghijklmnopqrstuvwxyz"[k]
  {
  }

  lemma V1AnyCase(text: string)
    ensures Identify("URN:BTIH:" + text) == Identify("urn:btih:" + text)
  {
    var upper, lower := "URN:BTIH:" + text, "urn:btih:" + text;
    assert upper[..9] == "URN:BTIH:" && lower[..9] == "urn:btih:" && upper[9..] == text && lower[9..] == text;
    assert Lower("URN:BTIH:") == "urn:btih:" == Lower("urn:btih:");
  }

  lemma V2AnyCase(text: string)
    ensures Identify("URN:BTMH:1220" + text) == Identify("urn:btmh:1220" + text)
  {
    var upper, lower := "URN:BTMH:1220" + text, "urn:btmh:1220" + text;
    assert upper[..13] == "URN:BTMH:1220" && lower[..13] == "urn:btmh:1220";
    assert upper[13..] == text && lower[13..] == text;
    assert Lower("URN:BTMH:1220") == "urn:btmh:1220" == Lower("urn:btmh:1220");
    assert Lower(upper[..9])[6] == 'm' && Lower(lower[..9])[6] == 'm';
  }

  /** How an identity is printed. */
  lemma PrintSpelled(digest: string)
    ensures Print(Identity(V1, digest)) == "urn:btih:" + digest
    ensures Print(Identity(V2, digest)) == "urn:btmh:1220" + digest
  {
  }

  /** A link holds all its identities and the first twenty of its trackers, in text order. */
  lemma PairsSpelled(hashes: set<string>, trackers: set<string>)
    ensures var n := |SortedSet(trackers)|;
            Values(Pairs(hashes, trackers), "tr") == SortedSet(trackers)[..if n > 20 then 20 else n]
    ensures Values(Pairs(hashes, trackers), "xt") == SortedSet(hashes)
  {
    var a, b := Tagged("xt", SortedSet(hashes)), Tagged("tr", FirstTrackers(trackers));
    ValuesJoin(a, b, "tr");
    ValuesTagged("xt", SortedSet(hashes), "tr");
    ValuesTagged("tr", FirstTrackers(trackers), "tr");
    PairsValues(SortedSet(hashes), FirstTrackers(trackers));
    assert [] + FirstTrackers(trackers) == FirstTrackers(trackers);
  }

  /** A cell holds a bare hexadecimal digest: what a link would say with the prefix of its
      length, and nothing for any other text. */
  lemma CellSpelled(value: string)
    ensures CellIds(InfoHash(value)) ==
            if |value| == 40 && Identify("urn:btih:" + value).Some? then {Identify("urn:btih:" + value).value}
            else if |value| == 64 && Identify("urn:btmh:1220" + value).Some?
            then {Identify("urn:btmh:1220" + value).value}
            else {}
    ensures CellIds(TrackerCell(value)) == {} && CellIds(OtherCell) == {}
  {
    var v1, v2 := "urn:btih:" + value, "urn:btmh:1220" + value;
    assert v1[..9] == BTIH && v1[9..] == value && Lower(BTIH) == BTIH;
    assert v2[..13] == BTMH && v2[13..] == value && Lower(BTMH) == BTMH;
    assert Lower(v2[..9])[6] == 'm';
  }
}

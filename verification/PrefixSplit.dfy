/** `parse_ipv6_u32_net` and `parse_ipv6_u64_net` of test-acl/main.c: an IPv6 prefix is split into
    prefixes of the words of the address. */
module PrefixSplit {
  import opened Words
  import opened Arithmetic
  import opened Mbufs
  import opened Numbers
  import opened Tokens

  const ADDR_BYTES := 16

  /** `struct rte_acl_field` of a mask field: a word, and how many of its leading bits count. */
  datatype Field = Field(value: nat, maskLen: nat)

  /** An address and the length of a prefix. */
  datatype Net = Net(addr: seq<byte>, m: nat)

  // ---- Numbers made of bytes ----

  /** The number with these bytes, the most significant first. */
  function BigEndian(bytes: seq<byte>): nat {
    if bytes == [] then 0 else BigEndian(bytes[..|bytes| - 1]) * 0x100 + bytes[|bytes| - 1]
  }

  lemma {:induction false} PowAdd(a: nat, b: nat)
    ensures Pow2(a + b) == Pow2(a) * Pow2(b)
    decreases a
  {
    if a > 0 {
      PowAdd(a - 1, b);
      assert 2 * (Pow2(a - 1) * Pow2(b)) == (2 * Pow2(a - 1)) * Pow2(b);
    }
  }

  lemma PowMore(k: nat)
    ensures Pow2(k + 8) == 0x100 * Pow2(k)
  {
    PowAdd(8, k);
    assert Pow2(8) == 0x100;
  }

  lemma {:induction false} BigEndianBound(bytes: seq<byte>)
    ensures BigEndian(bytes) < Pow2(8 * |bytes|)
  {
    if bytes != [] {
      BigEndianBound(bytes[..|bytes| - 1]);
      PowMore(8 * (|bytes| - 1));
    }
  }

  lemma {:induction false} BigEndianConcat(a: seq<byte>, b: seq<byte>)
    ensures BigEndian(a + b) == BigEndian(a) * Pow2(8 * |b|) + BigEndian(b)
  {
    if b == [] {
      assert a + b == a;
    } else {
      var n := |b| - 1;
      assert (a + b)[..|a + b| - 1] == a + b[..n];
      BigEndianConcat(a, b[..n]);
      PowMore(8 * n);
      Regroup(BigEndian(a), Pow2(8 * n), BigEndian(b[..n]));
    }
  }

  lemma Regroup(a: nat, p: nat, b: nat)
    ensures (a * p + b) * 0x100 == a * (0x100 * p) + b * 0x100
  {
  }

  // ---- Matching by leading bits ----

  function Quotient(x: nat, d: nat): nat
    requires d > 0
  {
    x / d
  }

  /** The first `len` of `bits` bits. */
  function Leading(x: nat, bits: nat, len: nat): nat
    requires len <= bits
  {
    Quotient(x, Pow2(bits - len))
  }

  /** How many leading bits of word `i` a prefix of length `m` covers, by the branches of the loop. */
  function MaskLen(m: nat, i: nat, bits: nat): (len: nat)
    ensures len <= bits
  {
    if m >= (i + 1) * bits then bits else if m > i * bits then m - i * bits else 0
  }

  /** Word `i` of `n` bytes. */
  function Word(bytes: seq<byte>, i: nat, n: nat): nat
    requires (i + 1) * n <= |bytes|
  {
    BigEndian(bytes[i * n..(i + 1) * n])
  }

  /** Dividing by `d` splits off the part above a multiple of it. */
  lemma SplitQuotient(a: nat, d: nat, r: nat)
    requires d > 0
    ensures (a * d + r) / d == a + r / d
  {
    var q := r / d;
    assert r == q * d + r % d;
    assert (a + q) * d == a * d + q * d;
    QuotientIs(a * d + r, d, a + q, r % d);
  }

  lemma QuotientBound(r: nat, p: nat, d: nat)
    requires d > 0 && r < p * d
    ensures r / d < p
  {
    var q := r / d;
    assert r == q * d + r % d;
    if q >= p {
      MulMonotone(p, q, d);
    }
  }

  lemma Expand(z: nat, b: nat, t: nat, a: nat)
    ensures (z * b + t) * a == z * (a * b) + t * a
  {
    Commute(z, a, b);
    assert (z * b + t) * a == (z * b) * a + t * a;
  }

  lemma Commute(z: nat, a: nat, b: nat)
    ensures (z * b) * a == z * (a * b)
  {
  }

  /** Dividing by `a` first, and then by `b`. */
  lemma QuotientOfUpper(hi: nat, lo: nat, a: nat, b: nat)
    requires a > 0 && b > 0 && a * b > 0 && lo < a
    ensures (hi * a + lo) / (a * b) == hi / b
  {
    var z, t := hi / b, hi % b;
    assert hi == z * b + t;
    Expand(z, b, t, a);
    MulMonotone(t + 1, b, a);
    QuotientIs(hi * a + lo, a * b, z, t * a + lo);
  }

  /** Leading bits that lie within the upper part of a number. */
  lemma LeadingOfUpper(hi: nat, lo: nat, p: nat, q: nat, len: nat)
    requires lo < Pow2(q) && len <= p
    ensures Leading(hi * Pow2(q) + lo, p + q, len) == Leading(hi, p, len)
  {
    PowAdd(q, p - len);
    QuotientOfUpper(hi, lo, Pow2(q), Pow2(p - len));
  }

  /** Leading bits that reach into the lower part. */
  lemma LeadingOfBoth(hi: nat, lo: nat, p: nat, q: nat, len: nat)
    requires lo < Pow2(q) && p <= len <= p + q
    ensures Leading(hi * Pow2(q) + lo, p + q, len) == hi * Pow2(len - p) + Leading(lo, q, len - p)
    ensures Leading(lo, q, len - p) < Pow2(len - p)
  {
    var d := Pow2(p + q - len);
    PowAdd(len - p, p + q - len);
    assert hi * Pow2(q) == hi * Pow2(len - p) * d;
    SplitQuotient(hi * Pow2(len - p), d, lo);
    QuotientBound(lo, Pow2(len - p), d);
  }

  lemma PairsAreEqual(hi: nat, lo: nat, hi2: nat, lo2: nat, p: nat)
    requires lo < p && lo2 < p
    ensures hi * p + lo == hi2 * p + lo2 <==> hi == hi2 && lo == lo2
  {
    if hi * p + lo == hi2 * p + lo2 {
      QuotientIs(hi * p + lo, p, hi, lo);
      QuotientIs(hi * p + lo, p, hi2, lo2);
    }
  }

  /** One more word of `w` bits below `p` bits: the first `m` bits agree just when those of the upper
      part do, and those of the word that are left. */
  lemma OneMoreWord(hi: nat, lo: nat, hi2: nat, lo2: nat, p: nat, w: nat, m: nat)
    requires lo < Pow2(w) && lo2 < Pow2(w) && m <= p + w
    ensures var above, below := Min(m, p), m - Min(m, p);
      Leading(hi * Pow2(w) + lo, p + w, m) == Leading(hi2 * Pow2(w) + lo2, p + w, m) <==>
        (Leading(hi, p, above) == Leading(hi2, p, above) && Leading(lo, w, below) == Leading(lo2, w, below))
  {
    if m <= p {
      LeadingOfUpper(hi, lo, p, w, m);
      LeadingOfUpper(hi2, lo2, p, w, m);
      NoLeading(lo, w);
      NoLeading(lo2, w);
    } else {
      LeadingOfBoth(hi, lo, p, w, m);
      LeadingOfBoth(hi2, lo2, p, w, m);
      PairsAreEqual(hi, Leading(lo, w, m - p), hi2, Leading(lo2, w, m - p), Pow2(m - p));
    }
  }

  lemma NoLeading(x: nat, bits: nat)
    requires x < Pow2(bits)
    ensures Leading(x, bits, 0) == 0
  {
    QuotientIs(x, Pow2(bits), 0, x);
  }

  // ---- The words together ----

  predicate WordsAgree(a: seq<byte>, b: seq<byte>, n: nat, k: nat, m: nat)
    requires |a| >= k * n && |b| >= k * n
  {
    forall i :: 0 <= i < k ==> WordAgrees(a, b, n, k, m, i)
  }

  predicate WordAgrees(a: seq<byte>, b: seq<byte>, n: nat, k: nat, m: nat, i: nat)
    requires |a| >= k * n && |b| >= k * n && i < k
  {
    MulMonotone(i + 1, k, n);
    var len := MaskLen(m, i, 8 * n);
    Leading(Word(a, i, n), 8 * n, len) == Leading(Word(b, i, n), 8 * n, len)
  }

  /** All words agree in their leading bits just when the whole numbers do in theirs. */
  lemma {:induction false} WordsAreTheWhole(a: seq<byte>, b: seq<byte>, n: nat, k: nat, m: nat)
    requires n > 0 && |a| == |b| == k * n && m <= 8 * (k * n)
    ensures WordsAgree(a, b, n, k, m)
      <==> Leading(BigEndian(a), 8 * |a|, m) == Leading(BigEndian(b), 8 * |b|, m)
    decreases k
  {
    hide Leading, Word, MaskLen, BigEndian;
    if k == 0 {
      assert a == [] && b == [];
    } else {
      var j: nat := k - 1;
      Products(j, n);
      var p, w := 8 * (j * n), 8 * n;
      WordsAreTheWhole(a[..j * n], b[..j * n], n, j, Min(m, p));
      LastWord(a, n, j);
      LastWord(b, n, j);
      OneMoreWord(BigEndian(a[..j * n]), Word(a, j, n), BigEndian(b[..j * n]), Word(b, j, n), p, w, m);
      MaskOfLast(m, j, w, p);
      forall i | 0 <= i < j
        ensures WordAgrees(a, b, n, k, m, i) <==> WordAgrees(a[..j * n], b[..j * n], n, j, Min(m, p), i)
      {
        SameWord(a, b, n, j, m, i);
      }
      assert WordsAgree(a, b, n, k, m) <==>
        WordsAgree(a[..j * n], b[..j * n], n, j, Min(m, p)) && WordAgrees(a, b, n, k, m, j);
    }
  }

  lemma Products(j: nat, n: nat)
    ensures (j + 1) * n == j * n + n && 8 * (j * n) + 8 * n == 8 * ((j + 1) * n) && 8 * (j * n) == j * (8 * n)
  {
  }

  lemma LastWord(a: seq<byte>, n: nat, j: nat)
    requires |a| == (j + 1) * n
    ensures j * n <= |a| && Word(a, j, n) < Pow2(8 * n)
    ensures BigEndian(a) == BigEndian(a[..j * n]) * Pow2(8 * n) + Word(a, j, n)
  {
    hide BigEndian;
    Products(j, n);
    var lo := a[j * n..(j + 1) * n];
    assert a == a[..j * n] + lo;
    BigEndianConcat(a[..j * n], lo);
    BigEndianBound(lo);
  }

  lemma MaskOfLast(m: nat, j: nat, w: nat, p: nat)
    requires p == j * w && m <= p + w
    ensures MaskLen(m, j, w) == m - Min(m, p)
  {
    Products(j, w);
  }

  lemma SameWord(a: seq<byte>, b: seq<byte>, n: nat, j: nat, m: nat, i: nat)
    requires |a| == |b| == (j + 1) * n && i < j && j * n <= (j + 1) * n
    ensures WordAgrees(a, b, n, j + 1, m, i) <==>
      WordAgrees(a[..j * n], b[..j * n], n, j, Min(m, 8 * (j * n)), i)
  {
    hide Leading, BigEndian;
    MulMonotone(i + 1, j, n);
    Products(i, n);
    assert a[..j * n][i * n..(i + 1) * n] == a[i * n..(i + 1) * n];
    assert b[..j * n][i * n..(i + 1) * n] == b[i * n..(i + 1) * n];
    SameMask(m, i, j, 8 * n);
    Products(j, n);
  }

  lemma SameMask(m: nat, i: nat, j: nat, w: nat)
    requires i < j
    ensures MaskLen(Min(m, j * w), i, w) == MaskLen(m, i, w)
  {
    MulMonotone(i + 1, j, w);
    Products(i, w);
  }

  // ---- Parsing ----

  /** The address before the slash and the length behind it; `pton` is `inet_pton` for `AF_INET6`. */
  function ParseNet(text: string, pton: string -> Option<seq<byte>>): Option<Net> {
    match NextToken(text, "/")
    case None => None
    case Some(sa) =>
      match NextToken(sa.rest, "/")
      case None => None
      case Some(sm) =>
        match pton(sa.text)
        case None => None
        case Some(addr) =>
          match Numbers.Field(sm.text, 8 * ADDR_BYTES)
          case None => None
          case Some(m) => Some(Net(addr, m))
  }

  ghost predicate GivesAddresses(pton: string -> Option<seq<byte>>) {
    forall s :: pton(s).Some? ==> |pton(s).value| == ADDR_BYTES
  }

  /** Both functions of the program: `n` is 4 for words of 32 bits, and 8 for words of 64 bits. */
  method ParseFields(text: string, n: nat, pton: string -> Option<seq<byte>>, field: array<Field>) returns (ok: bool)
    requires n in {4, 8} && field.Length * n == ADDR_BYTES && GivesAddresses(pton)
    modifies field
    ensures ok <==> ParseNet(text, pton).Some?
    ensures ok ==> IsSplit(ParseNet(text, pton).value, n, field[..])
    ensures !ok ==> field[..] == old(field[..])
  {
    hide ParseNet, IsFieldOf;
    var net := ParseNet(text, pton);
    if net == None {
      return false;
    }
    ParsedNet(text, pton);
    PutTogether(net.value, n, field);
    ok := true;
  }

  method PutTogether(net: Net, n: nat, field: array<Field>)
    requires n in {4, 8} && field.Length * n == ADDR_BYTES == |net.addr|
    modifies field
    ensures forall i :: 0 <= i < field.Length ==> WithinAddress(i, n) && IsFieldOf(net, n, i, field[i])
  {
    hide BigEndian;
    for i := 0 to field.Length
      invariant forall j :: 0 <= j < i ==> WithinAddress(j, n) && IsFieldOf(net, n, j, field[j])
    {
      var bits, m := 8 * n, net.m;
      var len := if m >= (i + 1) * bits then bits else if m > i * bits then m - i * bits else 0;
      MulMonotone(i + 1, field.Length, n);
      field[i] := Field(Word(net.addr, i, n), len);
    }
  }

  predicate WithinAddress(i: nat, n: nat) {
    (i + 1) * n <= ADDR_BYTES
  }

  /** The value is the word of the address; how much of it counts is the part of the prefix that falls
      on this word. */
  predicate IsFieldOf(net: Net, n: nat, i: nat, f: Field)
    requires |net.addr| == ADDR_BYTES && n in {4, 8} && (i + 1) * n <= ADDR_BYTES
  {
    f == Field(Word(net.addr, i, n), MaskLen(net.m, i, 8 * n))
  }

  predicate IsSplit(net: Net, n: nat, fields: seq<Field>) {
    && n in {4, 8} && |fields| * n == ADDR_BYTES == |net.addr| && net.m <= 8 * ADDR_BYTES
    && forall i :: 0 <= i < |fields| ==> IsFieldOf(net, n, i, fields[i])
  }

  lemma ParsedNet(text: string, pton: string -> Option<seq<byte>>)
    requires GivesAddresses(pton)
    ensures ParseNet(text, pton).Some? ==>
      |ParseNet(text, pton).value.addr| == ADDR_BYTES && ParseNet(text, pton).value.m <= 8 * ADDR_BYTES
  {
  }

  /** A text without a slash, or with nothing behind it, is no net. */
  lemma NoLengthNoNet(text: string, pton: string -> Option<seq<byte>>)
    requires Free(text, "/")
    ensures ParseNet(text, pton) == None && ParseNet(text + "/", pton) == None
  {
    if text != "" {
      LastTokenOf(text, "/");
      TokenOf(text, '/', "", "/");
      assert text + (['/'] + "") == text + "/";
    } else {
      var slash := text + "/";
      assert slash[0] == '/' && slash[1..] == "";
      assert SkipDelims(slash, "/") == SkipDelims("", "/");
    }
  }

  /** What is in front of the slash and behind it decide together, each on its own. */
  lemma ParsedParts(sa: string, sm: string, pton: string -> Option<seq<byte>>)
    requires sa != "" && sm != "" && Free(sa, "/") && Free(sm, "/")
    ensures ParseNet(sa + ("/" + sm), pton) ==
      if pton(sa).Some? && Numbers.Field(sm, 128).Some?
      then Some(Net(pton(sa).value, Numbers.Field(sm, 128).value)) else None
  {
    hide Numbers.Field;
    TokenOf(sa, '/', sm, "/");
    LastTokenOf(sm, "/");
    assert ['/'] + sm == "/" + sm;
  }

  /** An address with a length in decimal is parsed to that address and that length just when the length
      is at most 128. */
  lemma ParsePrinted(sa: string, m: nat, pton: string -> Option<seq<byte>>)
    requires sa != "" && Free(sa, "/") && pton(sa).Some?
    ensures ParseNet(sa + ("/" + Decimal(m)), pton) == if m <= 128 then Some(Net(pton(sa).value, m)) else None
  {
    hide ParseNet, Numbers.Field;
    DecimalReads(m);
    FieldOfDecimal(m, 128);
    ParsedParts(sa, Decimal(m), pton);
  }

  // ---- What the fields mean ----

  /** A rule accepts an address when every field agrees with its word of the address in the leading
      bits that count. */
  predicate Accepts(fields: seq<Field>, n: nat, packet: seq<byte>)
    requires n in {4, 8} && |fields| * n == |packet| == ADDR_BYTES
  {
    forall i :: 0 <= i < |fields| ==>
      var f := fields[i];
      f.maskLen <= 8 * n && Leading(Word(packet, i, n), 8 * n, f.maskLen) == Leading(f.value, 8 * n, f.maskLen)
  }

  /** The first `m` bits of the addresses are the same. */
  predicate InNet(net: Net, packet: seq<byte>)
    requires |net.addr| == |packet| == ADDR_BYTES && net.m <= 8 * ADDR_BYTES
  {
    Leading(BigEndian(packet), 8 * ADDR_BYTES, net.m) == Leading(BigEndian(net.addr), 8 * ADDR_BYTES, net.m)
  }

  /** Whole bytes of the prefix are the same, and so are the bits of the byte it ends in. */
  predicate ByteAgrees(net: Net, packet: seq<byte>, i: nat)
    requires |net.addr| == |packet| == ADDR_BYTES && i < ADDR_BYTES
  {
    && (8 * (i + 1) <= net.m ==> packet[i] == net.addr[i])
    && (8 * i < net.m < 8 * (i + 1) ==>
          packet[i] / Pow2(8 * (i + 1) - net.m) == net.addr[i] / Pow2(8 * (i + 1) - net.m))
  }

  /** What it means that the first `m` bits are the same, byte by byte. */
  lemma NetByBytes(net: Net, packet: seq<byte>)
    requires |net.addr| == |packet| == ADDR_BYTES && net.m <= 8 * ADDR_BYTES
    ensures InNet(net, packet) <==> forall i :: 0 <= i < ADDR_BYTES ==> ByteAgrees(net, packet, i)
  {
    hide Leading, BigEndian, WordAgrees, ByteAgrees;
    WordsAreTheWhole(packet, net.addr, 1, ADDR_BYTES, net.m);
    forall i | 0 <= i < ADDR_BYTES
      ensures WordAgrees(packet, net.addr, 1, ADDR_BYTES, net.m, i) <==> ByteAgrees(net, packet, i)
    {
      ByteIsWord(net, packet, i);
    }
  }

  lemma ByteIsWord(net: Net, packet: seq<byte>, i: nat)
    requires |net.addr| == |packet| == ADDR_BYTES && i < ADDR_BYTES
    ensures WordAgrees(packet, net.addr, 1, ADDR_BYTES, net.m, i) <==> ByteAgrees(net, packet, i)
  {
    hide Leading;
    WordOfByte(packet, i);
    WordOfByte(net.addr, i);
    LeadingOfByte(packet[i], MaskLen(net.m, i, 8));
    LeadingOfByte(net.addr[i], MaskLen(net.m, i, 8));
  }

  lemma WordOfByte(bytes: seq<byte>, i: nat)
    requires i < |bytes|
    ensures Word(bytes, i, 1) == bytes[i]
  {
    var one := bytes[i * 1..(i + 1) * 1];
    assert one == [bytes[i]];
    assert BigEndian(one[..0]) == 0;
  }

  lemma LeadingOfByte(x: byte, len: nat)
    requires len <= 8
    ensures Leading(x, 8, len) == x / Pow2(8 - len)
    ensures len == 0 ==> Leading(x, 8, len) == 0
    ensures len == 8 ==> Leading(x, 8, len) == x
  {
    if len == 0 {
      assert Pow2(8) == 0x100;
    }
  }

  /** The rule accepts exactly the addresses of the net, for words of either size. */
  lemma SplitMeansTheNet(net: Net, n: nat, fields: seq<Field>, packet: seq<byte>)
    requires IsSplit(net, n, fields) && |packet| == ADDR_BYTES
    ensures Accepts(fields, n, packet) <==> InNet(net, packet)
  {
    hide Leading, Word, MaskLen, BigEndian;
    var k := |fields|;
    WordsAreTheWhole(packet, net.addr, n, k, net.m);
    if n == 4 {
      assert k == 4;
    } else {
      assert k == 2;
    }
    forall i | 0 <= i < k ensures IsFieldOf(net, n, i, fields[i]) && (WordAgrees(packet, net.addr, n, k, net.m, i) <==>
        var f := fields[i];
        f.maskLen <= 8 * n && Leading(Word(packet, i, n), 8 * n, f.maskLen) == Leading(f.value, 8 * n, f.maskLen))
    {
    }
  }

  /** The two forms of a rule accept the same addresses. */
  lemma FormsAgree(net: Net, fields32: seq<Field>, fields64: seq<Field>, packet: seq<byte>)
    requires IsSplit(net, 4, fields32) && IsSplit(net, 8, fields64) && |packet| == ADDR_BYTES
    ensures Accepts(fields32, 4, packet) <==> Accepts(fields64, 8, packet)
  {
    SplitMeansTheNet(net, 4, fields32, packet);
    SplitMeansTheNet(net, 8, fields64, packet);
  }

  /** The parts of the prefix add up to its length. */
  lemma LengthsAddUp(net: Net, fields32: seq<Field>, fields64: seq<Field>)
    requires IsSplit(net, 4, fields32) && IsSplit(net, 8, fields64)
    ensures fields32[0].maskLen + fields32[1].maskLen + fields32[2].maskLen + fields32[3].maskLen == net.m
    ensures fields64[0].maskLen + fields64[1].maskLen == net.m
  {
    hide Word;
    assert IsFieldOf(net, 4, 0, fields32[0]) && IsFieldOf(net, 4, 1, fields32[1]);
    assert IsFieldOf(net, 4, 2, fields32[2]) && IsFieldOf(net, 4, 3, fields32[3]);
    assert IsFieldOf(net, 8, 0, fields64[0]) && IsFieldOf(net, 8, 1, fields64[1]);
  }
}

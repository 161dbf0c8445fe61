/**
  The Base64 codec of api/util/base64.hpp (RFC 4648, sections 4 and 5). A unit
  is a position in the 64-character alphabet; 64 stands for any other
  character, the pad character among them.
 */
module Base64 {
  import Arith
  import opened Bytes
  import opened Common
  import opened Pieces

  const PAD: byte := 61

  // ---- the alphabet ----

  /** The letters, the digits, and two more characters that depend on the alphabet; pad for anything else. */
  function Char(u: nat, url: bool): byte {
    if u < 26 then 65 + u
    else if u < 52 then 97 + u - 26
    else if u < 62 then 48 + u - 52
    else if u == 62 then (if url then 45 else 43)
    else if u == 63 then (if url then 95 else 47)
    else PAD
  }

  /** The alphabet: the capital letters from A on, the small ones from a, the digits from 0, and two more. */
  lemma AlphabetRuns(u: nat, url: bool)
    requires u < 64
    ensures Char(0, url) == 'A' as int && Char(26, url) == 'a' as int && Char(52, url) == '0' as int
    ensures Char(62, url) == (if url then '-' else '+') as int && Char(63, url) == (if url then '_' else '/') as int
    ensures u != 25 && u != 51 && u < 61 ==> Char(u + 1, url) == Char(u, url) + 1
    ensures Char(64, url) == '=' as int
  {
  }

  /** The position of a character in the alphabet from the u-th on, or 64. */
  function Find(c: byte, u: nat, url: bool): (r: nat)
    requires u <= 64
    ensures u <= r <= 64 && (r < 64 ==> Char(r, url) == c)
    ensures forall v :: u <= v < r ==> Char(v, url) != c
    decreases c, 64 - u
  {
    if u == 64 || Char(u, url) == c then u else Find(c, u + 1, url)
  }

  function Units(s: seq<byte>, url: bool): (us: seq<nat>)
    ensures |us| == |s| && forall k {:trigger us[k]} :: 0 <= k < |us| ==> us[k] == Find(s[k], 0, url)
  {
    seq(|s|, k requires 0 <= k < |s| => Find(s[k], 0, url))
  }

  function Chars(us: seq<nat>, url: bool): (s: seq<byte>)
    ensures |s| == |us| && forall k {:trigger s[k]} :: 0 <= k < |us| ==> s[k] == Char(us[k], url)
  {
    seq(|us|, k requires 0 <= k < |us| => Char(us[k], url))
  }

  /** Each unit's character is found where it is, and the pad character is none. */
  lemma FindChar(u: nat, url: bool)
    requires u <= 64
    ensures Find(Char(u, url), 0, url) == u
  {
    assert forall v :: 0 <= v < 64 && v != u ==> Char(v, url) != Char(u, url);
  }

  lemma UnitsOfChars(us: seq<nat>, url: bool)
    requires forall k :: 0 <= k < |us| ==> us[k] <= 64
    ensures Units(Chars(us, url), url) == us
  {
    forall k | 0 <= k < |us|
      ensures Units(Chars(us, url), url)[k] == us[k]
    {
      FindChar(us[k], url);
    }
  }

  // ---- encoding ----

  function GroupUnits(g: seq<byte>): (us: seq<nat>)
    requires 1 <= |g| <= 3
    ensures |us| == 4 && forall k :: 0 <= k < 4 ==> us[k] <= 64
    ensures us[3] == 64 <==> |g| < 3
    ensures |g| == 3 ==> Known(us)
  {
    if |g| == 1 then [g[0] / 4, g[0] % 4 * 16, 64, 64]
    else if |g| == 2 then [g[0] / 4, g[0] % 4 * 16 + g[1] / 16, g[1] % 16 * 4, 64]
    else [g[0] / 4, g[0] % 4 * 16 + g[1] / 16, g[1] % 16 * 4 + g[2] / 64, g[2] % 64]
  }

  /** Groups of up to three bytes in n bytes. */
  function Groups(n: nat): nat {
    (n + 2) / 3
  }

  function GroupEnd(data: seq<byte>, k: nat): nat {
    if 3 * k + 3 <= |data| then 3 * k + 3 else |data|
  }

  function GroupList(data: seq<byte>, k: nat): (gs: seq<seq<nat>>)
    requires k <= Groups(|data|)
    ensures |gs| == k
    ensures forall j {:trigger gs[j]} :: 0 <= j < k ==> gs[j] == GroupUnits(data[3 * j..GroupEnd(data, j)])
  {
    seq(k, j requires 0 <= j < k => GroupUnits(data[3 * j..GroupEnd(data, j)]))
  }

  /** The units of the first k groups. */
  function EncodeUnits(data: seq<byte>, k: nat): (us: seq<nat>)
    requires k <= Groups(|data|)
  {
    Join(GroupList(data, k))
  }

  function Encode(data: seq<byte>, url: bool): (s: seq<byte>) {
    Chars(EncodeUnits(data, Groups(|data|)), url)
  }

  /** The characters of the group at i, appended one by one; says whether it was a full one. */
  method PushGroup(data: seq<byte>, i: nat, before: seq<byte>, url: bool) returns (buffer: seq<byte>, full: bool)
    requires i < |data|
    ensures full <==> i + 3 <= |data|
    ensures buffer == before + Chars(GroupUnits(data[i..if full then i + 3 else |data|]), url)
  {
    buffer, full := before + [Char(data[i] / 4, url)], false;
    var unit := data[i] % 4 * 16;
    if i + 1 < |data| {
      buffer := buffer + [Char(unit + data[i + 1] / 16, url)];
      unit := data[i + 1] % 16 * 4;
      if i + 2 < |data| {
        buffer := buffer + [Char(unit + data[i + 2] / 64, url)];
        buffer := buffer + [Char(data[i + 2] % 64, url)];
        full := true;
      } else {
        buffer := buffer + [Char(unit, url)];
        buffer := buffer + [PAD];
      }
    } else {
      buffer := buffer + [Char(unit, url)];
      buffer := buffer + [PAD, PAD];
    }
    var g := data[i..if full then i + 3 else |data|];
    GroupChars(g, url);
    FourMore(before, buffer, Chars(GroupUnits(g), url));
  }

  /** The characters of a group, each by itself. */
  lemma GroupChars(g: seq<byte>, url: bool)
    requires 1 <= |g| <= 3
    ensures var cs, c1, c2 := Chars(GroupUnits(g), url), g[0] % 4 * 16, if |g| > 1 then g[1] % 16 * 4 else 0;
            && |cs| == 4 && cs[0] == Char(g[0] / 4, url)
            && cs[1] == Char(if |g| > 1 then c1 + g[1] / 16 else c1, url)
            && cs[2] == (if |g| > 2 then Char(c2 + g[2] / 64, url) else if |g| > 1 then Char(c2, url) else PAD)
            && cs[3] == if |g| > 2 then Char(g[2] % 64, url) else PAD
  {
  }

  lemma FourMore(before: seq<byte>, buffer: seq<byte>, cs: seq<byte>)
    requires |cs| == 4 && buffer == before + [cs[0]] + [cs[1]] + [cs[2]] + [cs[3]]
    ensures buffer == before + cs
  {
  }

  lemma CharsConcat(a: seq<nat>, b: seq<nat>, url: bool)
    ensures Chars(a + b, url) == Chars(a, url) + Chars(b, url)
  {
  }

  lemma EncodeStep(data: seq<byte>, k: nat, url: bool)
    requires 3 * k < |data|
    ensures Chars(EncodeUnits(data, k + 1), url) ==
            Chars(EncodeUnits(data, k), url) + Chars(GroupUnits(data[3 * k..GroupEnd(data, k)]), url)
  {
    var last := GroupUnits(data[3 * k..GroupEnd(data, k)]);
    assert GroupList(data, k + 1) == GroupList(data, k) + [last];
    JoinSnoc(GroupList(data, k), last);
    CharsConcat(EncodeUnits(data, k), last, url);
  }

  method EncodeAll(data: seq<byte>, url: bool) returns (buffer: seq<byte>)
    ensures buffer == Encode(data, url)
  {
    buffer := [];
    var i := 0;
    ghost var k := 0;
    while i < |data|
      invariant Reached(data, k, i) && buffer == Chars(EncodeUnits(data, k), url)
    {
      buffer, i := NextGroup(data, i, k, buffer, url);
      k := k + 1;
    }
  }

  /** Position i is where the first k groups end. */
  predicate Reached(data: seq<byte>, k: nat, i: nat) {
    i <= |data| && k <= Groups(|data|) && (if i < |data| then i == 3 * k else k == Groups(|data|))
  }

  /** One turn of the loop over the groups. */
  method NextGroup(data: seq<byte>, i: nat, ghost k: nat, before: seq<byte>, url: bool)
    returns (buffer: seq<byte>, j: nat)
    requires i < |data| && Reached(data, k, i) && before == Chars(EncodeUnits(data, k), url)
    ensures i < j && Reached(data, k + 1, j) && buffer == Chars(EncodeUnits(data, k + 1), url)
  {
    var full;
    EncodeStep(data, k, url);
    buffer, full := PushGroup(data, i, before, url);
    j := if full then i + 3 else |data|;
  }

  // ---- decoding ----

  predicate Known(us: seq<nat>) {
    forall k {:trigger us[k]} :: 0 <= k < |us| ==> us[k] < 64
  }

  /** The first byte of a quad; a foreign second character shows up as bit 2. */
  function First(a: nat, b: nat): byte
    requires a <= 64 && b <= 64
  {
    if a < 64 && b < 64 then a * 4 + b / 16
    else if a < 64 && a % 2 == 1 then a * 4
    else if a < 64 then a * 4 + 4
    else b / 16
  }

  function Second(b: nat, c: nat): byte
    requires c < 64
  {
    (b % 16) * 16 + c / 4
  }

  function Third(c: nat, d: nat): byte
    requires d < 64
  {
    (c % 4) * 64 + d
  }

  predicate KnownAt(us: seq<nat>, k: nat)
    requires 4 * k + 4 <= |us|
  {
    us[4 * k] < 64 && us[4 * k + 1] < 64 && us[4 * k + 2] < 64 && us[4 * k + 3] < 64
  }

  /** The bytes of the k-th quad. */
  function DecodeQuad(us: seq<nat>, k: nat): (r: seq<byte>)
    requires 4 * k + 4 <= |us| && KnownAt(us, k)
  {
    var i := 4 * k;
    [First(us[i], us[i + 1]), Second(us[i + 1], us[i + 2]), Third(us[i + 2], us[i + 3])]
  }

  /** The last quad when it ends in a pad character: a foreign character there drops a byte instead of failing. */
  function DecodeLast(q: seq<nat>): seq<byte>
    requires |q| == 4 && q[0] <= 64 && q[1] <= 64
  {
    [First(q[0], q[1])] + (if q[2] < 64 then [Second(q[1], q[2])] else [])
      + (if q[3] < 64 then [Third(q[2], q[3])] else [])
  }

  ghost predicate QuadsKnown(us: seq<nat>, m: nat)
    requires 4 * m <= |us|
  {
    forall k :: 0 <= k < m ==> KnownAt(us, k)
  }

  ghost function QuadList(us: seq<nat>, m: nat): (parts: seq<seq<byte>>)
    requires 4 * m <= |us| && QuadsKnown(us, m)
    ensures |parts| == m && forall k {:trigger parts[k]} :: 0 <= k < m ==>
            KnownAt(us, k) && parts[k] == DecodeQuad(us, k)
  {
    seq(m, k requires 0 <= k < m && KnownAt(us, k) => DecodeQuad(us, k))
  }

  /** The bytes of the first m quads. */
  ghost function DecodeFull(us: seq<nat>, m: nat): (r: seq<byte>)
    requires 4 * m <= |us| && QuadsKnown(us, m)
  {
    Join(QuadList(us, m))
  }

  /** How many quads are decoded as full ones. */
  function FullQuads(n: nat, padded: bool): nat
    requires n > 0
  {
    if padded && n >= 4 then n / 4 - 1 else n / 4
  }

  ghost function DecodeUnits(us: seq<nat>, padded: bool): Option<seq<byte>>
    requires us != [] && forall k :: 0 <= k < |us| ==> us[k] <= 64
  {
    var m := FullQuads(|us|, padded);
    if |us| % 4 != 0 || !QuadsKnown(us, m) then None
    else Some(DecodeFull(us, m) + if padded then DecodeLast(us[|us| - 4..]) else [])
  }

  ghost function Decode(s: seq<byte>, url: bool): Option<seq<byte>>
    requires s != []
  {
    DecodeUnits(Units(s, url), s[|s| - 1] == PAD)
  }

  /** Decode quad by quad; the last one is treated apart when it ends in a pad character. */
  method DecodeQuads(us: seq<nat>, padded: bool) returns (r: Option<seq<byte>>)
    requires us != [] && |us| % 4 == 0 && forall k :: 0 <= k < |us| ==> us[k] <= 64
    ensures r == DecodeUnits(us, padded)
  {
    var quads := FullQuads(|us|, padded);
    var buffer, m := [], 0;
    while m < quads
      invariant 0 <= m <= quads && QuadsKnown(us, m) && buffer == DecodeFull(us, m)
    {
      if !KnownAt(us, m) {
        return None;
      }
      OneMoreQuad(us, m);
      buffer := buffer + DecodeQuad(us, m);
      m := m + 1;
    }
    if padded {
      buffer := buffer + DecodeLast(us[4 * m..]);
    } else {
      assert buffer + [] == buffer;
    }
    return Some(buffer);
  }

  lemma OneMoreQuad(us: seq<nat>, m: nat)
    requires 4 * m + 4 <= |us| && QuadsKnown(us, m) && KnownAt(us, m)
    ensures QuadsKnown(us, m + 1) && DecodeFull(us, m + 1) == DecodeFull(us, m) + DecodeQuad(us, m)
  {
    var last := DecodeQuad(us, m);
    assert QuadList(us, m + 1) == QuadList(us, m) + [last];
    JoinSnoc(QuadList(us, m), last);
  }

  method DecodeAll(s: seq<byte>, url: bool) returns (r: Option<seq<byte>>)
    requires s != []
    ensures r == Decode(s, url)
  {
    if |s| % 4 != 0 {
      return None;
    }
    r := DecodeQuads(Units(s, url), s[|s| - 1] == PAD);
  }

  // ---- round trip ----

  lemma FirstBack(x: byte, low: nat)
    requires low < 16
    ensures First(x / 4, x % 4 * 16 + low) == x
  {
    assert (x % 4 * 16 + low) / 16 == x % 4;
  }

  lemma SecondBack(high: nat, y: byte, low: nat)
    requires high < 4 && low < 4
    ensures Second(high * 16 + y / 16, y % 16 * 4 + low) == y
  {
    assert (high * 16 + y / 16) % 16 == y / 16;
    assert (y % 16 * 4 + low) / 4 == y % 16;
  }

  lemma ThirdBack(high: nat, z: byte)
    requires high < 16
    ensures Third(high * 4 + z / 64, z % 64) == z
  {
    assert (high * 4 + z / 64) % 4 == z / 64;
  }

  lemma QuadRoundTrip(us: seq<nat>, k: nat, g: seq<byte>)
    requires |g| == 3 && 4 * k + 4 <= |us| && us[4 * k..4 * k + 4] == GroupUnits(g)
    ensures KnownAt(us, k) && DecodeQuad(us, k) == g
  {
    var q := us[4 * k..4 * k + 4];
    assert us[4 * k] == q[0] && us[4 * k + 1] == q[1] && us[4 * k + 2] == q[2] && us[4 * k + 3] == q[3];
    FirstBack(g[0], g[1] / 16);
    SecondBack(g[0] % 4, g[1], g[2] / 64);
    ThirdBack(g[1] % 16, g[2]);
  }

  lemma LastOfOne(x: byte)
    ensures DecodeLast(GroupUnits([x])) == [x]
  {
    FirstBack(x, 0);
  }

  lemma LastOfTwo(x: byte, y: byte)
    ensures DecodeLast(GroupUnits([x, y])) == [x, y]
  {
    var b, c := x % 4 * 16 + y / 16, y % 16 * 4;
    assert GroupUnits([x, y]) == [x / 4, b, c, 64];
    assert First(x / 4, b) == x by {
      FirstBack(x, y / 16);
    }
    assert Second(b, c) == y by {
      SecondBack(x % 4, y, 0);
    }
  }

  lemma LastRoundTrip(g: seq<byte>)
    requires 1 <= |g| <= 2
    ensures DecodeLast(GroupUnits(g)) == g
  {
    if |g| == 1 {
      assert g == [g[0]];
      LastOfOne(g[0]);
    } else {
      assert g == [g[0], g[1]];
      LastOfTwo(g[0], g[1]);
    }
  }

  /** A full group comes back from its quad. */
  lemma GroupBack(data: seq<byte>, us: seq<nat>, k: nat)
    requires us == EncodeUnits(data, Groups(|data|)) && 3 * k + 3 <= |data|
    ensures 4 * k + 4 <= |us| && KnownAt(us, k) && DecodeQuad(us, k) == data[3 * k..3 * k + 3]
  {
    JoinAt(GroupList(data, Groups(|data|)), k);
    QuadRoundTrip(us, k, data[3 * k..3 * k + 3]);
  }

  /** A sequence cut into threes and joined again. */
  function Threes(data: seq<byte>, m: nat): (parts: seq<seq<byte>>)
    requires 3 * m <= |data|
    ensures |parts| == m && forall k {:trigger parts[k]} :: 0 <= k < m ==> parts[k] == data[3 * k..3 * k + 3]
  {
    seq(m, k requires 0 <= k < m => data[3 * k..3 * k + 3])
  }

  lemma {:induction false} JoinThrees(data: seq<byte>, m: nat)
    requires 3 * m <= |data|
    ensures Join(Threes(data, m)) == data[..3 * m]
    decreases m
  {
    if m == 0 {
    } else {
      JoinThrees(data, m - 1);
      assert Threes(data, m)[..m - 1] == Threes(data, m - 1);
      assert data[..3 * (m - 1)] + data[3 * (m - 1)..3 * m] == data[..3 * m];
    }
  }

  /** The first m full groups come back from their quads. */
  lemma FullRoundTrip(data: seq<byte>, us: seq<nat>, m: nat)
    requires us == EncodeUnits(data, Groups(|data|)) && 3 * m <= |data|
    ensures 4 * m <= |us| && QuadsKnown(us, m) && DecodeFull(us, m) == data[..3 * m]
  {
    if m > 0 {
      GroupBack(data, us, m - 1);
    }
    forall k | 0 <= k < m
      ensures KnownAt(us, k)
    {
      GroupBack(data, us, k);
    }
    forall k | 0 <= k < m
      ensures QuadList(us, m)[k] == Threes(data, m)[k]
    {
      GroupBack(data, us, k);
    }
    assert QuadList(us, m) == Threes(data, m);
    JoinThrees(data, m);
  }

  lemma Assembled(us: seq<nat>, m: nat, front: seq<byte>, padded: bool, last: seq<byte>)
    requires us != [] && forall k :: 0 <= k < |us| ==> us[k] <= 64
    requires |us| == (if padded then 4 * m + 4 else 4 * m) && QuadsKnown(us, m) && DecodeFull(us, m) == front
    requires last == if padded then DecodeLast(us[4 * m..]) else []
    ensures DecodeUnits(us, padded) == Some(front + last)
  {
    assert FullQuads(|us|, padded) == m;
  }

  lemma LastGroup(data: seq<byte>, us: seq<nat>, n: nat)
    requires data != [] && n == Groups(|data|) && us == EncodeUnits(data, n)
    ensures 3 * n - 3 < |data| <= 3 * n && |us| == 4 * n && us[4 * (n - 1)..] == GroupUnits(data[3 * (n - 1)..])
    ensures us[|us| - 1] == 64 <==> |data| < 3 * n
  {
    var gs := GroupList(data, n);
    LastOfGroups(data, n);
    JoinAt(gs, n - 1);
    EndOf(us, gs[n - 1]);
  }

  lemma LastOfGroups(data: seq<byte>, n: nat)
    requires data != [] && n == Groups(|data|)
    ensures GroupList(data, n)[n - 1] == GroupUnits(data[3 * (n - 1)..])
  {
    assert data[3 * (n - 1)..GroupEnd(data, n - 1)] == data[3 * (n - 1)..];
  }

  lemma EndOf(us: seq<nat>, q: seq<nat>)
    requires |q| == 4 <= |us| && us[|us| - 4..|us|] == q
    ensures us[|us| - 4..] == q && us[|us| - 1] == q[3]
  {
    assert us[|us| - 4..][3] == us[|us| - 1];
  }

  lemma PaddedBack(data: seq<byte>, us: seq<nat>, n: nat)
    requires data != [] && n == Groups(|data|) && us == EncodeUnits(data, n) && |data| < 3 * n
    requires us != [] && forall k :: 0 <= k < |us| ==> us[k] <= 64
    ensures DecodeUnits(us, true) == Some(data)
  {
    LastGroup(data, us, n);
    FullRoundTrip(data, us, n - 1);
    var front, last := data[..3 * (n - 1)], data[3 * (n - 1)..];
    LastRoundTrip(last);
    Assembled(us, n - 1, front, true, last);
    assert front + last == data;
  }

  lemma UnpaddedBack(data: seq<byte>, us: seq<nat>, n: nat)
    requires data != [] && n == Groups(|data|) && us == EncodeUnits(data, n) && |data| == 3 * n
    requires us != [] && forall k :: 0 <= k < |us| ==> us[k] <= 64
    ensures DecodeUnits(us, false) == Some(data)
  {
    LastGroup(data, us, n);
    FullRoundTrip(data, us, n);
    assert data[..3 * n] == data;
    Assembled(us, n, data, false, []);
    assert data + [] == data;
  }

  lemma UnitsRoundTrip(data: seq<byte>, us: seq<nat>, n: nat)
    requires data != [] && n == Groups(|data|) && us == EncodeUnits(data, n)
    requires us != [] && forall k :: 0 <= k < |us| ==> us[k] <= 64
    ensures DecodeUnits(us, |data| < 3 * n) == Some(data)
  {
    LastGroup(data, us, n);
    if |data| < 3 * n {
      PaddedBack(data, us, n);
    } else {
      UnpaddedBack(data, us, n);
    }
  }

  lemma PadAtEnd(us: seq<nat>, url: bool)
    requires us != [] && us[|us| - 1] <= 64
    ensures Chars(us, url)[|us| - 1] == PAD <==> us[|us| - 1] == 64
  {
    FindChar(us[|us| - 1], url);
    FindChar(64, url);
  }

  lemma UnitsSmall(data: seq<byte>, us: seq<nat>)
    requires us == EncodeUnits(data, Groups(|data|))
    ensures forall k :: 0 <= k < |us| ==> us[k] <= 64
  {
    var gs := GroupList(data, Groups(|data|));
    JoinLength(gs);
    forall k | 0 <= k < |us|
      ensures us[k] <= 64
    {
      JoinAt(gs, k / 4);
      assert us[k] == gs[k / 4][k % 4];
    }
  }

  lemma EncodedLength(data: seq<byte>, url: bool)
    ensures |Encode(data, url)| == 4 * ((|data| + 2) / 3)
  {
    JoinLength(GroupList(data, Groups(|data|)));
  }

  /** Three bytes as one number. */
  function Number(a: int, b: int, c: int): int {
    0x1_0000 * a + 0x100 * b + c
  }

  lemma NumberDigits(a: int, b: int, c: int)
    requires 0 <= a < 256 && 0 <= b < 256 && 0 <= c < 256
    ensures Number(a, b, c) / 0x4_0000 == a / 4
    ensures Number(a, b, c) / 0x1000 % 64 == a % 4 * 16 + b / 16
    ensures Number(a, b, c) / 0x40 % 64 == b % 16 * 4 + c / 64
    ensures Number(a, b, c) % 64 == c % 64
  {
    var x := Number(a, b, c);
    Arith.DivModUnique(x, 0x4_0000, a / 4, a % 4 * 0x1_0000 + 0x100 * b + c);
    Arith.DivModUnique(x, 0x1000, 16 * a + b / 16, b % 16 * 0x100 + c);
    Arith.DivModUnique(16 * a + b / 16, 64, a / 4, a % 4 * 16 + b / 16);
    Arith.DivModUnique(x, 0x40, 1024 * a + 4 * b + c / 64, c % 64);
    Arith.DivModUnique(1024 * a + 4 * b + c / 64, 64, 16 * a + b / 16, b % 16 * 4 + c / 64);
  }

  /** The bytes of a group as one number, with zeros for those that are missing. */
  function GroupNumber(g: seq<byte>): int
    requires 1 <= |g| <= 3
  {
    Number(g[0], if |g| > 1 then g[1] else 0, if |g| > 2 then g[2] else 0)
  }

  /** The units of a group are the digits of that number to the base 64, with pads for missing bytes. */
  lemma GroupDigits(g: seq<byte>)
    requires 1 <= |g| <= 3
    ensures var us, x := GroupUnits(g), GroupNumber(g);
            && us[0] == x / 0x4_0000 && us[1] == x / 0x1000 % 64
            && us[2] == (if |g| > 1 then x / 0x40 % 64 else 64) && us[3] == (if |g| > 2 then x % 64 else 64)
  {
    NumberDigits(g[0], if |g| > 1 then g[1] else 0, if |g| > 2 then g[2] else 0);
  }

  /** So every four characters of an encoding are the digits of the three bytes they stand for. */
  lemma EncodedDigits(data: seq<byte>, url: bool, k: nat)
    requires 3 * k < |data|
    ensures var g := data[3 * k..if 3 * k + 3 <= |data| then 3 * k + 3 else |data|];
            var s, x := Encode(data, url), GroupNumber(g);
            && 4 * k + 4 <= |s|
            && s[4 * k] == Char(x / 0x4_0000, url) && s[4 * k + 1] == Char(x / 0x1000 % 64, url)
            && s[4 * k + 2] == (if |g| > 1 then Char(x / 0x40 % 64, url) else PAD)
            && s[4 * k + 3] == (if |g| > 2 then Char(x % 64, url) else PAD)
  {
    var us, gs, g := EncodeUnits(data, Groups(|data|)), GroupList(data, Groups(|data|)), data[3 * k..GroupEnd(data, k)];
    JoinAt(gs, k);
    GroupDigits(g);
    QuadOf(us, 4 * k, gs[k]);
  }

  lemma QuadOf(us: seq<nat>, at: nat, q: seq<nat>)
    requires at + 4 <= |us| && |q| == 4 && us[at..at + 4] == q
    ensures us[at] == q[0] && us[at + 1] == q[1] && us[at + 2] == q[2] && us[at + 3] == q[3]
  {
    var part := us[at..at + 4];
    assert us[at] == part[0] && us[at + 1] == part[1] && us[at + 2] == part[2] && us[at + 3] == part[3];
  }

  /** Whatever is encoded decodes to itself. */
  lemma RoundTrip(data: seq<byte>, url: bool)
    requires data != []
    ensures Encode(data, url) != [] && Decode(Encode(data, url), url) == Some(data)
  {
    var n := Groups(|data|);
    var us := EncodeUnits(data, n);
    UnitsSmall(data, us);
    LastGroup(data, us, n);
    UnitsRoundTrip(data, us, n);
    UnitsOfChars(us, url);
    PadAtEnd(us, url);
  }

  ghost predicate Foreign(c: byte, url: bool) {
    forall u :: 0 <= u < 64 ==> Char(u, url) != c
  }

  /** Decoding fails if and only if the length is no multiple of four or a full quad holds a foreign character. */
  lemma DecodeRejects(s: seq<byte>, url: bool)
    requires s != []
    ensures Decode(s, url) == None <==>
            |s| % 4 != 0 || exists k :: 0 <= k < 4 * FullQuads(|s|, s[|s| - 1] == PAD) && Foreign(s[k], url)
  {
    if |s| % 4 == 0 {
      var m := FullQuads(|s|, s[|s| - 1] == PAD);
      if QuadsKnown(Units(s, url), m) {
        forall k | 0 <= k < 4 * m
          ensures !Foreign(s[k], url)
        {
          KnownNotForeign(s, url, m, k);
        }
      } else {
        var k := UnknownForeign(s, url, m);
      }
    }
  }

  lemma UnitForeign(c: byte, url: bool)
    ensures Find(c, 0, url) == 64 <==> Foreign(c, url)
  {
  }

  lemma KnownNotForeign(s: seq<byte>, url: bool, m: nat, k: nat)
    requires 4 * m <= |s| && QuadsKnown(Units(s, url), m) && k < 4 * m
    ensures !Foreign(s[k], url)
  {
    assert KnownAt(Units(s, url), k / 4);
    UnitForeign(s[k], url);
  }

  lemma UnknownForeign(s: seq<byte>, url: bool, m: nat) returns (k: nat)
    requires 4 * m <= |s| && !QuadsKnown(Units(s, url), m)
    ensures k < 4 * m && Foreign(s[k], url)
  {
    var us := Units(s, url);
    var j :| 0 <= j < m && !KnownAt(us, j);
    k :| 4 * j <= k < 4 * j + 4 && us[k] >= 64;
    UnitForeign(s[k], url);
  }

  // ---- the other way round ----

  lemma UnitsBack(a: nat, b: nat, c: nat, d: nat)
    requires a < 64 && b < 64 && c < 64 && d < 64
    ensures GroupUnits([First(a, b), Second(b, c), Third(c, d)]) == [a, b, c, d]
  {
    var x, y, z := First(a, b), Second(b, c), Third(c, d);
    assert x / 4 == a && x % 4 == b / 16 && y / 16 == b % 16 && y % 16 == c / 4 && z / 64 == c % 4 && z % 64 == d;
  }

  lemma QuadBack(us: seq<nat>, m: nat)
    requires 4 * m + 4 <= |us| && KnownAt(us, m)
    ensures GroupUnits(DecodeQuad(us, m)) == us[4 * m..4 * m + 4]
  {
    UnitsBack(us[4 * m], us[4 * m + 1], us[4 * m + 2], us[4 * m + 3]);
  }

  lemma OneMoreGroup(data: seq<byte>, q: seq<byte>, m: nat)
    requires |data| == 3 * m && |q| == 3
    ensures EncodeUnits(data + q, m + 1) == EncodeUnits(data, m) + GroupUnits(q)
  {
    var more := data + q;
    forall j | 0 <= j < m
      ensures GroupList(more, m + 1)[j] == GroupList(data, m)[j]
    {
      assert more[3 * j..GroupEnd(more, j)] == data[3 * j..GroupEnd(data, j)];
    }
    assert more[3 * m..GroupEnd(more, m)] == q;
    assert GroupList(more, m + 1) == GroupList(data, m) + [GroupUnits(q)];
    JoinSnoc(GroupList(data, m), GroupUnits(q));
  }

  /** The bytes of the first m quads encode to these quads. */
  ghost predicate BackAt(us: seq<nat>, m: nat) {
    && 4 * m <= |us| && QuadsKnown(us, m)
    && |DecodeFull(us, m)| == 3 * m && EncodeUnits(DecodeFull(us, m), m) == us[..4 * m]
  }

  lemma {:induction false} FullBack(us: seq<nat>, m: nat)
    requires 4 * m <= |us| && QuadsKnown(us, m)
    ensures BackAt(us, m)
    decreases m
  {
    if m == 0 {
    } else {
      FullBack(us, m - 1);
      NextBack(us, m - 1);
    }
  }

  lemma NextBack(us: seq<nat>, k: nat)
    requires 4 * k + 4 <= |us| && KnownAt(us, k) && BackAt(us, k)
    ensures BackAt(us, k + 1)
  {
    OneMoreQuad(us, k);
    QuadBack(us, k);
    BackStep(us, DecodeFull(us, k), DecodeQuad(us, k), k);
  }

  lemma BackStep(us: seq<nat>, front: seq<byte>, q: seq<byte>, k: nat)
    requires 4 * k + 4 <= |us| && |front| == 3 * k && |q| == 3
    requires EncodeUnits(front, k) == us[..4 * k] && GroupUnits(q) == us[4 * k..4 * k + 4]
    ensures |front + q| == 3 * (k + 1) && EncodeUnits(front + q, k + 1) == us[..4 * (k + 1)]
  {
    OneMoreGroup(front, q, k);
    assert us[..4 * k] + us[4 * k..4 * k + 4] == us[..4 * (k + 1)];
  }

  lemma CharsOfUnits(s: seq<byte>, url: bool)
    requires forall k :: 0 <= k < |s| ==> !Foreign(s[k], url)
    ensures Chars(Units(s, url), url) == s && forall k :: 0 <= k < |s| ==> Units(s, url)[k] < 64
  {
    forall k | 0 <= k < |s|
      ensures Units(s, url)[k] < 64 && Chars(Units(s, url), url)[k] == s[k]
    {
      UnitForeign(s[k], url);
    }
  }

  /** Text in the alphabet whose length is a multiple of four is the encoding of what it decodes to. */
  lemma DecodeBack(s: seq<byte>, url: bool)
    requires s != [] && |s| % 4 == 0 && forall k :: 0 <= k < |s| ==> !Foreign(s[k], url)
    ensures Decode(s, url).Some? && Encode(Decode(s, url).value, url) == s
  {
    var us := Units(s, url);
    CharsOfUnits(s, url);
    NoPadAtEnd(s, url);
    KnownUnitsBack(us, |s| / 4);
  }

  lemma NoPadAtEnd(s: seq<byte>, url: bool)
    requires s != [] && !Foreign(s[|s| - 1], url)
    ensures s[|s| - 1] != PAD
  {
    FindChar(64, url);
    UnitForeign(s[|s| - 1], url);
  }

  lemma KnownUnitsBack(us: seq<nat>, m: nat)
    requires |us| == 4 * m && m > 0 && forall k :: 0 <= k < |us| ==> us[k] < 64
    ensures DecodeUnits(us, false).Some?
    ensures var d := DecodeUnits(us, false).value; EncodeUnits(d, Groups(|d|)) == us
  {
    assert QuadsKnown(us, m) && FullQuads(|us|, false) == m;
    FullBack(us, m);
    AllDecoded(us, m, DecodeFull(us, m));
    assert us[..4 * m] == us;
  }

  lemma AllDecoded(us: seq<nat>, m: nat, d: seq<byte>)
    requires |us| == 4 * m && m > 0 && (forall k :: 0 <= k < |us| ==> us[k] <= 64) && QuadsKnown(us, m)
    requires d == DecodeFull(us, m) && |d| == 3 * m
    ensures DecodeUnits(us, false) == Some(d) && Groups(|d|) == m
  {
    assert FullQuads(|us|, false) == m && d + [] == d;
  }

  /**
    The last quad of padded text: a byte for the first two characters, one
    more for each of the others in the alphabet.  A foreign first character
    counts as zero and a foreign second one sets a bit of the first byte.
   */
  lemma LastQuadBytes(q: seq<nat>)
    requires |q| == 4 && forall k :: 0 <= k < 4 ==> q[k] <= 64
    ensures var r := DecodeLast(q);
            && |r| == 1 + (if q[2] < 64 then 1 else 0) + (if q[3] < 64 then 1 else 0)
            && (q[1] < 64 ==> r[0] == q[0] % 64 * 4 + q[1] / 16)
            && (q[1] == 64 ==> r[0] / 8 == q[0] % 64 / 2 && r[0] % 8 == 4)
            && (q[2] < 64 ==> r[1] == q[1] % 16 * 16 + q[2] / 4)
            && (q[3] < 64 ==> r[|r| - 1] == q[2] % 4 * 64 + q[3])
  {
  }
}

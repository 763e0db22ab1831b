/**
 The order-preserving key codec: how field values become bytes, and why byte order is field
 order.

 Strings end in a NUL byte; signed integers have their sign bit flipped and are written
 big-endian, like unsigned ones; booleans are one byte; UUIDs are their sixteen bytes.
 Compound keys are concatenations.
 */
module Codec {
  import opened Bytes

  // ---------------------------------------------------------------- integers

  function Pow2(n: nat): nat
    ensures Pow2(n) > 0
  {
    if n == 0 then 1 else 2 * Pow2(n - 1)
  }

  function Pow256(n: nat): nat
    ensures Pow256(n) > 0
  {
    if n == 0 then 1 else 256 * Pow256(n - 1)
  }

  lemma {:induction false} Pow256IsPow2(n: nat)
    ensures Pow256(n) == Pow2(8 * n)
  {
    if n > 0 {
      Pow256IsPow2(n - 1);
      var m := 8 * (n - 1);
      assert Pow2(m + 2) == 2 * Pow2(m + 1) == 4 * Pow2(m);
      assert Pow2(m + 4) == 2 * Pow2(m + 3) == 4 * Pow2(m + 2);
      assert Pow2(m + 6) == 2 * Pow2(m + 5) == 4 * Pow2(m + 4);
      assert Pow2(m + 8) == 2 * Pow2(m + 7) == 4 * Pow2(m + 6);
    }
  }

  /** The low `n` bytes of a number, most significant first. */
  function BigEndian(v: nat, n: nat): (r: Key)
    ensures |r| == n
    decreases n
  {
    if n == 0 then [] else BigEndian(v / 256, n - 1) + [v % 256]
  }

  function FromBigEndian(k: Key): nat {
    if k == [] then 0 else FromBigEndian(k[..|k| - 1]) * 256 + k[|k| - 1]
  }

  lemma {:induction false} BigEndianRoundTrip(v: nat, n: nat)
    ensures FromBigEndian(BigEndian(v, n)) == v % Pow256(n)
    decreases n
  {
    if n > 0 {
      BigEndianRoundTrip(v / 256, n - 1);
      var high := BigEndian(v / 256, n - 1);
      assert (high + [v % 256])[..n - 1] == high;
      DivideTwice(v, Pow256(n - 1));
    }
  }

  lemma Multiple(d: int, p: int)
    requires p > 0
    ensures d >= 1 ==> d * p >= p
    ensures d <= -1 ==> d * p <= -p
  {
  }

  /** Quotient and remainder are determined by the range of the remainder. */
  lemma Division(x: int, p: int, q: int, r: int)
    requires p > 0 && x == q * p + r && 0 <= r < p
    ensures x / p == q && x % p == r
  {
    var d := x / p - q;
    assert x == x / p * p + x % p;
    assert d * p == r - x % p;
    Multiple(d, p);
  }

  lemma DivideTwice(v: nat, p: nat)
    requires p > 0
    ensures (v / 256) % p * 256 + v % 256 == v % (256 * p)
    ensures v / 256 / p == v / (256 * p)
  {
    var q, r := v / 256 / p, v / 256 % p;
    assert v / 256 == q * p + r;
    assert v == q * (256 * p) + (r * 256 + v % 256);
    Division(v, 256 * p, q, r * 256 + v % 256);
  }

  /** For strings of one length, the order of a longer pair is decided front first. */
  lemma {:induction false} LessSnoc(a: Key, b: Key, x: byte, y: byte)
    requires |a| == |b|
    ensures Less(a + [x], b + [y]) <==> Less(a, b) || (a == b && x < y)
  {
    if a != [] {
      assert (a + [x])[1..] == a[1..] + [x] && (b + [y])[1..] == b[1..] + [y];
      LessSnoc(a[1..], b[1..], x, y);
      assert a == [a[0]] + a[1..] && b == [b[0]] + b[1..];
    }
  }

  /** Big-endian bytes are ordered like the numbers. */
  lemma {:induction false} BigEndianOrder(v: nat, w: nat, n: nat)
    requires v < Pow256(n) && w < Pow256(n)
    ensures Less(BigEndian(v, n), BigEndian(w, n)) <==> v < w
    ensures BigEndian(v, n) == BigEndian(w, n) ==> v == w
    decreases n
  {
    if n > 0 {
      BigEndianOrder(v / 256, w / 256, n - 1);
      LessSnoc(BigEndian(v / 256, n - 1), BigEndian(w / 256, n - 1), v % 256, w % 256);
      BigEndianRoundTrip(v, n);
      BigEndianRoundTrip(w, n);
    }
  }

  lemma QuotientIsNat(v: nat, p: nat)
    requires p > 0
    ensures v / p >= 0
  {
  }

  /** A number without its low `d` bytes. */
  function HighPart(v: nat, d: nat): nat {
    QuotientIsNat(v, Pow256(d));
    v / Pow256(d)
  }

  lemma HighPartStep(v: nat, d: nat)
    ensures HighPart(v, 0) == v
    ensures d > 0 ==> HighPart(v, d) == HighPart(v / 256, d - 1)
  {
    if d > 0 {
      DivideTwice(v, Pow256(d - 1));
    }
  }

  /** The bytes of a number are those of its high part followed by its low bytes. */
  lemma {:induction false} BigEndianSplit(v: nat, n: nat, d: nat)
    ensures BigEndian(v, n + d) == BigEndian(HighPart(v, d), n) + BigEndian(v, d)
    decreases d
  {
    hide HighPart;
    HighPartStep(v, d);
    if d == 0 {
      assert BigEndian(v, n) + BigEndian(v, 0) == BigEndian(v, n);
    } else {
      BigEndianSplit(v / 256, n, d - 1);
      var high, low := BigEndian(HighPart(v, d), n), BigEndian(v / 256, d - 1);
      assert high + (low + [v % 256]) == (high + low) + [v % 256];
    }
  }

  lemma {:induction false} HighPartFits(v: nat, n: nat, d: nat)
    requires v < Pow256(n + d)
    ensures HighPart(v, d) < Pow256(n)
    decreases d
  {
    hide HighPart;
    HighPartStep(v, d);
    if d > 0 {
      HighPartFits(v / 256, n, d - 1);
    }
  }

  /** `x ^ -(1 << k)` on two's complement integers: every bit from `k` up is flipped. */
  function FlipHigh(x: int, k: nat): int {
    x % Pow2(k) + Pow2(k) * (-1 - x / Pow2(k))
  }

  predicate IsWidth(size: nat) {
    size == 1 || size == 2 || size == 4 || size == 8
  }

  predicate FitsSigned(x: int, size: nat) {
    size > 0 && 0 <= x + Pow2(8 * size - 1) && x < Pow2(8 * size - 1)
  }

  predicate FitsUnsigned(x: int, size: nat) {
    0 <= x < Pow256(size)
  }

  lemma FlipValue(x: int, k: nat)
    requires 0 <= x + Pow2(k) && x < Pow2(k)
    ensures FlipHigh(x, k) == if x < 0 then x + Pow2(k) else x - Pow2(k)
  {
    var p := Pow2(k);
    if x < 0 {
      Division(x, p, -1, x + p);
    } else {
      Division(x, p, 0, x);
    }
  }

  /** What flipping the sign bit and truncating to the width come to: a shift of the range. */
  lemma FlipIsShift(x: int, size: nat)
    requires size > 0 && FitsSigned(x, size)
    ensures FlipHigh(x, 8 * size - 1) % Pow256(size) == x + Pow2(8 * size - 1)
    ensures 0 <= x + Pow2(8 * size - 1) < Pow256(size)
  {
    var p := Pow2(8 * size - 1);
    FlipValue(x, 8 * size - 1);
    Pow256IsPow2(size);
    assert Pow256(size) == 2 * p;
    Division(if x < 0 then x + p else x - p, 2 * p, if x < 0 then 0 else -1, x + p);
  }

  /** `binary.BigEndian.PutUint16/32/64` and the one-byte store. */
  method PutBigEndian(buf: array<byte>, v: nat)
    modifies buf
    ensures buf[..] == BigEndian(v, buf.Length)
  {
    var i, rest := buf.Length, v;
    while i > 0
      invariant 0 <= i <= buf.Length
      invariant BigEndian(rest, i) + buf[i..] == BigEndian(v, buf.Length)
    {
      i := i - 1;
      buf[i] := rest % 256;
      assert buf[i..] == [rest % 256] + buf[i + 1..];
      rest := rest / 256;
    }
    assert buf[0..] == buf[..];
  }

  /** `encodeInt`. */
  method EncodeInt(val: int, size: nat) returns (buf: array<byte>)
    requires IsWidth(size) && FitsSigned(val, size)
    ensures fresh(buf) && buf[..] == Encode(Signed(size, val))
  {
    hide FlipHigh, Pow2, Pow256, BigEndian;
    buf := new byte[size](_ => 0);
    var scaled := FlipHigh(val, 8 * size - 1);
    FlipIsShift(val, size);
    PutBigEndian(buf, scaled % Pow256(size));
  }

  /** `encodeUInt`. */
  method EncodeUInt(val: nat, size: nat) returns (buf: array<byte>)
    requires IsWidth(size) && FitsUnsigned(val, size)
    ensures fresh(buf) && buf[..] == Encode(Unsigned(size, val))
  {
    buf := new byte[size](_ => 0);
    PutBigEndian(buf, val);
  }

  // ---------------------------------------------------------------- field values

  /** A field value as an index sees it; strings after case folding, UUIDs after parsing. */
  datatype Part =
    | Text(s: Key)
    | Signed(isize: nat, i: int)
    | Unsigned(usize: nat, u: nat)
    | Flag(b: bool)
    | Uuid(bytes: Key)

  predicate WellFormed(p: Part) {
    match p
    case Text(s) => 0 !in s
    case Signed(size, i) => IsWidth(size) && FitsSigned(i, size)
    case Unsigned(size, u) => IsWidth(size) && FitsUnsigned(u, size)
    case Flag(_) => true
    case Uuid(bytes) => |bytes| == 16
  }

  predicate SameKind(a: Part, b: Part) {
    match a
    case Text(_) => b.Text?
    case Signed(size, _) => b.Signed? && b.isize == size
    case Unsigned(size, _) => b.Unsigned? && b.usize == size
    case Flag(_) => b.Flag?
    case Uuid(_) => b.Uuid?
  }

  /** The order of the field's own type. */
  predicate PartLess(a: Part, b: Part)
    requires SameKind(a, b)
  {
    match a
    case Text(s) => Less(s, b.s)
    case Signed(_, i) => i < b.i
    case Unsigned(_, u) => u < b.u
    case Flag(x) => !x && b.b
    case Uuid(bytes) => Less(bytes, b.bytes)
  }

  function Encode(p: Part): Key {
    match p
    case Text(s) => s + [0]
    case Signed(size, i) =>
      if size == 0 || i + Pow2(8 * size - 1) < 0 then [] else BigEndian(i + Pow2(8 * size - 1), size)
    case Unsigned(size, u) => BigEndian(u, size)
    case Flag(b) => if b then [1] else [0]
    case Uuid(bytes) => bytes
  }

  lemma TextOrder(a: Key, b: Key)
    requires 0 !in a && 0 !in b
    ensures Less(a + [0], b + [0]) <==> Less(a, b)
    ensures Comparable(a + [0], b + [0]) ==> a == b
  {
    if Comparable(a, b) {
      var short, long := if |a| <= |b| then a else b, if |a| <= |b| then b else a;
      var rest := long[|short|..];
      assert long == short + rest && short + [] == short;
      LessCommonPrefix(short, [0], rest + [0]);
      LessCommonPrefix(short, rest + [0], [0]);
      assert short + (rest + [0]) == long + [0];
      LessCommonPrefix(short, [], rest);
      LessCommonPrefix(short, rest, []);
      if rest != [] {
        assert rest[0] in long;
        assert (short + [0])[|short|] == 0 && (long + [0])[|short|] == rest[0];
      }
    } else {
      LessDiverged(a, b, [0], [0]);
    }
  }

  lemma {:induction false} SameLength(a: Key, b: Key)
    requires |a| == |b|
    ensures Comparable(a, b) ==> a == b
  {
  }

  lemma Lengths(p: Part)
    requires WellFormed(p)
    ensures |Encode(p)| > 0
    ensures match p
            case Text(s) => true
            case Signed(size, _) => |Encode(p)| == size
            case Unsigned(size, _) => |Encode(p)| == size
            case Flag(_) => |Encode(p)| == 1
            case Uuid(_) => |Encode(p)| == 16
  {
  }

  lemma SignedOrder(size: nat, i: int, j: int)
    requires size > 0 && FitsSigned(i, size) && FitsSigned(j, size)
    ensures Less(Encode(Signed(size, i)), Encode(Signed(size, j))) <==> i < j
    ensures Encode(Signed(size, i)) == Encode(Signed(size, j)) ==> i == j
  {
    hide FlipHigh, Pow2, Pow256, BigEndian;
    FlipIsShift(i, size);
    FlipIsShift(j, size);
    BigEndianOrder(i + Pow2(8 * size - 1), j + Pow2(8 * size - 1), size);
  }

  /** One field: byte order is field order, and no encoding is a prefix of another. */
  lemma PartOrder(a: Part, b: Part)
    requires WellFormed(a) && WellFormed(b) && SameKind(a, b)
    ensures Less(Encode(a), Encode(b)) <==> PartLess(a, b)
    ensures Comparable(Encode(a), Encode(b)) ==> a == b
  {
    Lengths(a);
    Lengths(b);
    match a
    case Text(s) => TextOrder(s, b.s);
    case Signed(size, i) =>
      SignedOrder(size, i, b.i);
      SameLength(Encode(a), Encode(b));
    case Unsigned(size, u) =>
      BigEndianOrder(u, b.u, size);
      SameLength(Encode(a), Encode(b));
    case Flag(_) =>
    case Uuid(_) =>
  }

  // ---------------------------------------------------------------- tuples

  function Join(parts: seq<Part>): Key {
    if parts == [] then [] else Encode(parts[0]) + Join(parts[1..])
  }

  predicate AllWellFormed(parts: seq<Part>) {
    forall i :: 0 <= i < |parts| ==> WellFormed(parts[i])
  }

  /** Tuples of the same columns; one may stop earlier than the other. */
  predicate Alike(a: seq<Part>, b: seq<Part>) {
    forall i :: 0 <= i < |a| && i < |b| ==> SameKind(a[i], b[i])
  }

  lemma AlikeTail(a: seq<Part>, b: seq<Part>)
    requires Alike(a, b) && a != [] && b != []
    ensures SameKind(a[0], b[0]) && Alike(a[1..], b[1..])
  {
    forall i | 0 <= i < |a[1..]| && i < |b[1..]| ensures SameKind(a[1..][i], b[1..][i]) {
      assert SameKind(a[i + 1], b[i + 1]);
    }
  }

  lemma WellFormedTail(a: seq<Part>)
    requires AllWellFormed(a) && a != []
    ensures WellFormed(a[0]) && AllWellFormed(a[1..])
  {
  }

  /** Lexicographic order of tuples; a tuple that stops comes before its extensions. */
  predicate TupleLess(a: seq<Part>, b: seq<Part>)
    requires Alike(a, b)
  {
    if b == [] then false
    else if a == [] then true
    else
      AlikeTail(a, b);
      PartLess(a[0], b[0]) || (a[0] == b[0] && TupleLess(a[1..], b[1..]))
  }

  lemma PartIrreflexive(a: Part)
    requires SameKind(a, a)
    ensures !PartLess(a, a)
  {
    match a
    case Text(s) => LessIrreflexive(s);
    case Uuid(bytes) => LessIrreflexive(bytes);
    case _ =>
  }

  /** Compound keys are an order embedding: byte order of the keys is lexicographic order of the
      tuples, truncated or not; and a key is a byte prefix of another exactly if its tuple is
      a prefix of the other tuple. Hence full keys are prefix-free and injective. */
  lemma {:induction false} CompoundOrder(a: seq<Part>, b: seq<Part>)
    requires AllWellFormed(a) && AllWellFormed(b) && Alike(a, b)
    ensures Less(Join(a), Join(b)) <==> TupleLess(a, b)
    ensures Join(a) <= Join(b) <==> a <= b
  {
    hide Encode, WellFormed, SameKind, PartLess, Alike, AllWellFormed;
    if a == [] {
      if b != [] {
        WellFormedTail(b);
        Lengths(b[0]);
      }
    } else if b == [] {
      WellFormedTail(a);
      Lengths(a[0]);
    } else {
      WellFormedTail(a);
      WellFormedTail(b);
      AlikeTail(a, b);
      PartOrder(a[0], b[0]);
      var x, y, s, t := Encode(a[0]), Encode(b[0]), Join(a[1..]), Join(b[1..]);
      if a[0] == b[0] {
        CompoundOrder(a[1..], b[1..]);
        LessCommonPrefix(x, s, t);
        PartIrreflexive(a[0]);
        PrefixAfter(x, s, t);
        assert a == [a[0]] + a[1..] && b == [b[0]] + b[1..];
        PrefixAfter([a[0]], a[1..], b[1..]);
      } else {
        LessDiverged(x, y, s, t);
      }
    }
  }

  /** Full tuples of one column list: no key is a prefix of another, and equal keys come from
      equal tuples. */
  lemma FullKeysPrefixFree(a: seq<Part>, b: seq<Part>)
    requires AllWellFormed(a) && AllWellFormed(b) && Alike(a, b) && |a| == |b|
    ensures Comparable(Join(a), Join(b)) <==> a == b
  {
    CompoundOrder(a, b);
    CompoundOrder(b, a);
  }

  /** The order of stored keys: tuples first, then what follows them. Where one tuple stops and
      the other goes on, what follows the first is compared with the rest of the second. */
  predicate RowLess(a: seq<Part>, x: Key, b: seq<Part>, y: Key)
    requires Alike(a, b)
  {
    if a == [] then Less(x, Join(b) + y)
    else if b == [] then Less(Join(a) + x, y)
    else
      AlikeTail(a, b);
      PartLess(a[0], b[0]) || (a[0] == b[0] && RowLess(a[1..], x, b[1..], y))
  }

  /** Byte order of keys followed by ids is the order of rows, truncated or not. */
  lemma {:induction false} RowOrder(a: seq<Part>, x: Key, b: seq<Part>, y: Key)
    requires AllWellFormed(a) && AllWellFormed(b) && Alike(a, b)
    ensures Less(Join(a) + x, Join(b) + y) <==> RowLess(a, x, b, y)
  {
    hide Encode, WellFormed, SameKind, PartLess, Alike, AllWellFormed, Less;
    if a == [] {
      assert Join(a) + x == x;
    } else if b == [] {
      assert Join(b) + y == y;
    } else {
      WellFormedTail(a);
      WellFormedTail(b);
      AlikeTail(a, b);
      PartOrder(a[0], b[0]);
      var k, l, s, t := Encode(a[0]), Encode(b[0]), Join(a[1..]) + x, Join(b[1..]) + y;
      assert Join(a) + x == k + s && Join(b) + y == l + t;
      if a[0] == b[0] {
        RowOrder(a[1..], x, b[1..], y);
        LessCommonPrefix(k, s, t);
        PartIrreflexive(a[0]);
      } else {
        LessDiverged(k, l, s, t);
      }
    }
  }

  /** For full tuples this is the order of tuples, then of ids. */
  lemma {:induction false} FullRowOrder(a: seq<Part>, x: Key, b: seq<Part>, y: Key)
    requires Alike(a, b) && |a| == |b|
    ensures RowLess(a, x, b, y) <==> TupleLess(a, b) || (a == b && Less(x, y))
  {
    hide PartLess, Alike;
    if a == [] {
      assert Join(b) + y == y;
    } else {
      AlikeTail(a, b);
      FullRowOrder(a[1..], x, b[1..], y);
      assert a == [a[0]] + a[1..] && b == [b[0]] + b[1..];
      if a[0] == b[0] {
        PartIrreflexive(a[0]);
      }
    }
  }

  // ---------------------------------------------------------------- prefix queries

  /** Whether a field starts with the bytes of a partial argument: a piece of text without its
      terminator, or the leading bytes of a UUID. */
  predicate StartsWith(p: Part, raw: Key) {
    match p
    case Text(s) => raw <= s
    case Uuid(bytes) => raw <= bytes
    case _ => false
  }

  /** The partial arguments that `PrefixFromArgs` of a string or UUID index can produce. */
  predicate IsPartial(p: Part, raw: Key) {
    match p
    case Text(_) => 0 !in raw
    case Uuid(_) => |raw| <= 16
    case _ => false
  }

  lemma PrefixElements(p: Key, k: Key)
    requires p <= k
    ensures forall i :: 0 <= i < |p| ==> k[i] in p
  {
    assert forall i :: 0 <= i < |p| ==> p[i] == k[i];
  }

  lemma PartialIsExact(p: Part, raw: Key, rest: Key)
    requires WellFormed(p) && IsPartial(p, raw)
    ensures raw <= Encode(p) + rest <==> StartsWith(p, raw)
  {
    var k := Encode(p) + rest;
    match p
    case Text(s) =>
      assert k[|s|] == 0;
      if raw <= k {
        assert raw == k[..|raw|];
        PrefixElements(raw, k);
      }
      if raw <= s {
        assert k == raw + (s[|raw|..] + [0] + rest);
      }
    case Uuid(bytes) =>
      if raw <= k {
        assert raw == k[..|raw|] == bytes[..|raw|];
      }
      if raw <= bytes {
        assert k == raw + (bytes[|raw|..] + rest);
      }
  }

  /** Prefix queries are exact. The bytes of `args` followed by a partial last argument are a
      prefix of an object's key, possibly followed by its id, if and only if the object's leading
      fields equal `args` and its next field starts with the partial argument. An object
      with too few fields matches only if what remains of the query is a prefix of the id. */
  lemma {:induction false} PrefixQueryIsExact(fields: seq<Part>, args: seq<Part>, raw: Key, id: Key)
    requires AllWellFormed(fields) && AllWellFormed(args) && Alike(args, fields)
    requires |args| < |fields| ==> IsPartial(fields[|args|], raw)
    ensures Join(args) + raw <= Join(fields) + id <==>
            if |args| < |fields| then args <= fields && StartsWith(fields[|args|], raw)
            else fields <= args && Join(args[|fields|..]) + raw <= id
  {
    hide Encode, WellFormed, SameKind, Alike, AllWellFormed, StartsWith, IsPartial;
    if args == [] {
      assert Join(args) + raw == raw;
      if fields != [] {
        assert Join(fields) + id == Encode(fields[0]) + (Join(fields[1..]) + id);
        WellFormedTail(fields);
        PartialIsExact(fields[0], raw, Join(fields[1..]) + id);
      } else {
        assert Join(fields) + id == id;
      }
    } else if fields == [] {
      assert args[0..] == args;
      assert Join(fields) + id == id;
    } else {
      var x, y := Encode(args[0]), Encode(fields[0]);
      var s, t := Join(args[1..]) + raw, Join(fields[1..]) + id;
      assert Join(args) + raw == x + s && Join(fields) + id == y + t;
      WellFormedTail(args);
      WellFormedTail(fields);
      AlikeTail(args, fields);
      PartOrder(args[0], fields[0]);
      if args[0] == fields[0] {
        PrefixQueryIsExact(fields[1..], args[1..], raw, id);
        PrefixAfter(x, s, t);
        SameHead(args, fields);
        SameHead(fields, args);
        if |args| >= |fields| {
          assert args[1..][|fields| - 1..] == args[|fields|..];
        }
      } else {
        LessDiverged(x, y, s, t);
      }
    }
  }

  lemma SameHead<T>(a: seq<T>, b: seq<T>)
    requires a != [] && b != [] && a[0] == b[0]
    ensures a <= b <==> a[1..] <= b[1..]
  {
    assert a == [a[0]] + a[1..] && b == [b[0]] + b[1..];
    PrefixAfter([a[0]], a[1..], b[1..]);
  }
}

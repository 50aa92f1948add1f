/** Values shared by every part of the UDP presence subsystem: bytes,
    little-endian integers, the account record, byte-string order and the
    decimal/hexadecimal text of integers. */
module Base {

  type Byte = b: int | 0 <= b < 256
  type Bytes = seq<Byte>

  /** An unsigned 16-bit value, as written by writeUInt16LE. */
  type U16 = n: int | 0 <= n < 0x1_0000

  /** A signed 64-bit value, as read by readBigInt64LE (account ids are bigint). */
  type Int64 = n: int | -0x8000_0000_0000_0000 <= n < 0x8000_0000_0000_0000

  /** Account ids. The source keys its maps by `id.toString()`, which is
      injective, so the model keys them by the id itself. */
  type AccountId = Int64

  /** A string short enough for the protocol's 16-bit "length including
      terminator" prefix; a longer one makes writeUint16LE throw. Strings are
      modelled as their bytes (single-byte characters only). */
  type Text = s: Bytes | |s| < 0xFFFF

  datatype Option<T> = None | Some(value: T)

  /** A peer's transport endpoint, keyed as "address:port". */
  type Endpoint = string

  /** The account record returned by the account store (Prisma's User). */
  datatype User = User(id: AccountId, name: Text)

  // ---------------------------------------------------------------------
  // Little-endian integers

  function Pow256(k: nat): nat
  {
    if k == 0 then 1 else 256 * Pow256(k - 1)
  }

  /** The k-byte little-endian encoding of v. */
  function LE(v: nat, k: nat): (r: Bytes)
    ensures |r| == k
    decreases k
  {
    if k == 0 then [] else [v % 256] + LE(v / 256, k - 1)
  }

  /** The value of a little-endian byte string. */
  function FromLE(s: Bytes): nat
  {
    if s == [] then 0 else s[0] + 256 * FromLE(s[1..])
  }

  lemma {:induction false} FromLEBound(s: Bytes)
    ensures FromLE(s) < Pow256(|s|)
  {
    if s != [] {
      FromLEBound(s[1..]);
    }
  }

  /** Encoding then reading a little-endian integer gives it back. */
  lemma {:induction false} FromLEOfLE(v: nat, k: nat)
    requires v < Pow256(k)
    ensures FromLE(LE(v, k)) == v
    decreases k
  {
    if k > 0 {
      var r := LE(v, k);
      assert r[1..] == LE(v / 256, k - 1);
      FromLEOfLE(v / 256, k - 1);
    }
  }

  function U16LE(n: U16): (r: Bytes)
    ensures |r| == 2 && ReadU16LE(r, 0) == n
  {
    [n % 256, n / 256]
  }

  function ReadU16LE(s: Bytes, at: nat): U16
    requires at + 2 <= |s|
  {
    (s[at] as int) + 256 * (s[at + 1] as int)
  }

  lemma Pow256Of8()
    ensures Pow256(8) == 0x1_0000_0000_0000_0000
  {
  }

  /** writeBigInt64LE: two's complement, eight bytes, least significant first. */
  function I64LE(n: Int64): (r: Bytes)
    ensures |r| == 8
  {
    LE(if n < 0 then n + 0x1_0000_0000_0000_0000 else n, 8)
  }

  /** readBigInt64LE reads back what writeBigInt64LE wrote. */
  lemma I64LERoundTrip(n: Int64)
    ensures ReadI64LE(I64LE(n), 0) == n
  {
    Pow256Of8();
    var u := if n < 0 then n + 0x1_0000_0000_0000_0000 else n;
    FromLEOfLE(u, 8);
    assert I64LE(n)[0..8] == I64LE(n);
  }

  /** readBigInt64LE at offset `at`. */
  function ReadI64LE(s: Bytes, at: nat): Int64
    requires at + 8 <= |s|
  {
    FromLEBound(s[at..at + 8]);
    Pow256Of8();
    var u := FromLE(s[at..at + 8]);
    if u >= 0x8000_0000_0000_0000 then u - 0x1_0000_0000_0000_0000 else u
  }

  // ---------------------------------------------------------------------
  // Byte strings

  function Concat(parts: seq<Bytes>): Bytes
  {
    if parts == [] then [] else parts[0] + Concat(parts[1..])
  }

  lemma {:induction false} ConcatAppend(a: seq<Bytes>, b: seq<Bytes>)
    ensures Concat(a + b) == Concat(a) + Concat(b)
  {
    if a == [] {
      assert a + b == b;
    } else {
      assert (a + b)[1..] == a[1..] + b;
      ConcatAppend(a[1..], b);
    }
  }

  lemma ConcatSnoc(a: seq<Bytes>, x: Bytes)
    ensures Concat(a + [x]) == Concat(a) + x
  {
    ConcatAppend(a, [x]);
    assert Concat([x]) == x + Concat([]);
  }

  /** Plain lexicographic order on byte strings: the model's stand-in for
      String.prototype.localeCompare. */
  predicate LexLess(a: Bytes, b: Bytes)
    decreases |a|
  {
    |b| > 0 && (|a| == 0 || a[0] < b[0] || (a[0] == b[0] && LexLess(a[1..], b[1..])))
  }

  lemma {:induction false} LexIrreflexive(a: Bytes)
    ensures !LexLess(a, a)
    decreases |a|
  {
    if |a| > 0 {
      LexIrreflexive(a[1..]);
    }
  }

  lemma {:induction false} LexAsymmetric(a: Bytes, b: Bytes)
    requires LexLess(a, b)
    ensures !LexLess(b, a)
    decreases |a|
  {
    if |a| > 0 && a[0] == b[0] {
      LexAsymmetric(a[1..], b[1..]);
    }
  }

  lemma {:induction false} LexTransitive(a: Bytes, b: Bytes, c: Bytes)
    requires LexLess(a, b) && LexLess(b, c)
    ensures LexLess(a, c)
    decreases |a|
  {
    if |a| > 0 && a[0] == b[0] && b[0] == c[0] {
      LexTransitive(a[1..], b[1..], c[1..]);
    }
  }

  lemma {:induction false} LexTotal(a: Bytes, b: Bytes)
    requires a != b
    ensures LexLess(a, b) || LexLess(b, a)
    decreases |a|
  {
    if |a| > 0 && |b| > 0 && a[0] == b[0] {
      assert a == [a[0]] + a[1..] && b == [b[0]] + b[1..];
      LexTotal(a[1..], b[1..]);
    }
  }

  // ---------------------------------------------------------------------
  // Number.prototype.toString / BigInt.prototype.toString

  /** The ASCII digit for d ('0'-'9', then lower-case 'a'-'f'). */
  function DigitChar(d: nat): Byte
    requires d < 16
  {
    if d < 10 then 48 + d else 87 + d
  }

  function NatText(n: nat, base: nat): (r: Bytes)
    requires 2 <= base <= 16
    ensures |r| >= 1
    decreases n
  {
    if n < base then [DigitChar(n)] else NatText(n / base, base) + [DigitChar(n % base)]
  }

  /** `n.toString(base)`: a minus sign for negative values, then the digits. */
  function IntText(n: int, base: nat): Bytes
    requires 2 <= base <= 16
  {
    if n < 0 then [45] + NatText(-n, base) else NatText(n, base)
  }

  /** Decimal digits are the bytes '0'..'9'. */
  lemma {:induction false} DecimalDigits(n: nat)
    ensures forall i | 0 <= i < |NatText(n, 10)| :: 48 <= NatText(n, 10)[i] <= 57
  {
    if n >= 10 {
      DecimalDigits(n / 10);
    }
  }

  /** Distinct numbers have distinct decimal texts. */
  lemma {:induction false} NatTextInjective(n: nat, m: nat)
    requires NatText(n, 10) == NatText(m, 10)
    ensures n == m
  {
    var a := NatText(n, 10);
    if n >= 10 && m >= 10 {
      assert a[..|a| - 1] == NatText(n / 10, 10) && a[..|a| - 1] == NatText(m / 10, 10);
      NatTextInjective(n / 10, m / 10);
    }
  }

  lemma IntTextInjective(a: int, b: int)
    requires IntText(a, 10) == IntText(b, 10)
    ensures a == b
  {
    DecimalDigits(if a < 0 then -a else a);
    DecimalDigits(if b < 0 then -b else b);
    assert (IntText(a, 10)[0] == 45) == (a < 0);
    assert (IntText(b, 10)[0] == 45) == (b < 0);
    if a < 0 && b < 0 {
      assert IntText(a, 10)[1..] == NatText(-a, 10);
      assert IntText(b, 10)[1..] == NatText(-b, 10);
      NatTextInjective(-a, -b);
    } else if a >= 0 && b >= 0 {
      NatTextInjective(a, b);
    }
  }

  /** The decimal text of an integer never contains `sep` unless it is a
      digit or the minus sign. */
  lemma IntTextAvoids(n: int, sep: Byte)
    requires sep != 45 && !(48 <= sep <= 57)
    ensures sep !in IntText(n, 10)
  {
    DecimalDigits(if n < 0 then -n else n);
    if n < 0 {
      assert IntText(n, 10) == [45] + NatText(-n, 10);
    }
  }

  function Pow10(k: nat): nat
  {
    if k == 0 then 1 else 10 * Pow10(k - 1)
  }

  /** A number below 10^k has at most k decimal digits. */
  lemma {:induction false} DecimalLength(n: nat, k: nat)
    requires 1 <= k && n < Pow10(k)
    ensures |NatText(n, 10)| <= k
  {
    if n >= 10 {
      assert k != 1;
      DecimalLength(n / 10, k - 1);
    }
  }

  /** The decimal text of a 64-bit account id fits in 20 bytes. */
  lemma DecimalInt64Length(n: Int64)
    ensures |IntText(n, 10)| <= 20
  {
    assert Pow10(4) == 10_000;
    assert Pow10(8) == 100_000_000;
    assert Pow10(12) == 1_000_000_000_000;
    assert Pow10(16) == 10_000_000_000_000_000;
    assert Pow10(19) == 10_000_000_000_000_000_000;
    if n < 0 {
      DecimalLength(-(n as int), 19);
    } else {
      DecimalLength(n, 19);
    }
  }
}

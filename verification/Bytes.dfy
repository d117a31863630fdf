/** Byte strings as keys of the store: lexicographic order, big-endian counters, the 0xff
    separator and the splits that undo it. */
module Bytes {
  import R = Radix
  import opened Wrappers

  type Byte = x: nat | x < 256
  type Bytes = seq<Byte>
  type U64 = x: nat | x < 0x1_0000_0000_0000_0000

  const SEP: Byte := 0xff
  const U64_MAX: U64 := 0xffff_ffff_ffff_ffff

  // ---------- lexicographic order ----------

  predicate LexLe(a: Bytes, b: Bytes) {
    a == [] || (b != [] && (a[0] < b[0] || (a[0] == b[0] && LexLe(a[1..], b[1..]))))
  }

  lemma LexRefl(a: Bytes)
    ensures LexLe(a, a)
  {
  }

  lemma LexTotal(a: Bytes, b: Bytes)
    ensures LexLe(a, b) || LexLe(b, a)
  {
  }

  lemma {:induction false} LexAntisym(a: Bytes, b: Bytes)
    requires LexLe(a, b) && LexLe(b, a)
    ensures a == b
  {
    if a != [] && b != [] {
      LexAntisym(a[1..], b[1..]);
      assert a == [a[0]] + a[1..] && b == [b[0]] + b[1..];
    }
  }

  lemma {:induction false} LexTrans(a: Bytes, b: Bytes, c: Bytes)
    requires LexLe(a, b) && LexLe(b, c)
    ensures LexLe(a, c)
  {
    if a != [] && a[0] == b[0] == c[0] {
      LexTrans(a[1..], b[1..], c[1..]);
    }
  }

  lemma {:induction false} PrefixLe(p: Bytes, k: Bytes)
    requires p <= k
    ensures LexLe(p, k)
  {
    if p != [] {
      assert p[1..] <= k[1..];
      PrefixLe(p[1..], k[1..]);
    }
  }

  /** Keys sharing a prefix are contiguous. */
  lemma {:induction false} PrefixConvex(p: Bytes, a: Bytes, b: Bytes, c: Bytes)
    requires p <= a && p <= c && LexLe(a, b) && LexLe(b, c)
    ensures p <= b
  {
    if p != [] {
      assert p[0] == a[0] == c[0];
      PrefixConvex(p[1..], a[1..], b[1..], c[1..]);
      assert p == [p[0]] + p[1..] && b == [b[0]] + b[1..];
    }
  }

  /** A common prefix does not matter for the order. */
  lemma {:induction false} LexCommonPrefix(p: Bytes, a: Bytes, b: Bytes)
    ensures LexLe(p + a, p + b) <==> LexLe(a, b)
  {
    if p == [] {
      assert p + a == a && p + b == b;
    } else {
      LexCommonPrefix(p[1..], a, b);
      assert (p + a)[1..] == p[1..] + a && (p + b)[1..] == p[1..] + b;
    }
  }

  /** Equally long heads decide, unless they are equal. */
  lemma {:induction false} LexHeads(a: Bytes, x: Bytes, b: Bytes, y: Bytes)
    requires |a| == |b| && a != b
    ensures LexLe(a + x, b + y) <==> LexLe(a, b)
  {
    if a[0] == b[0] {
      assert a[1..] != b[1..] by {
        assert a == [a[0]] + a[1..] && b == [b[0]] + b[1..];
      }
      LexHeads(a[1..], x, b[1..], y);
      assert (a + x)[1..] == a[1..] + x && (b + y)[1..] == b[1..] + y;
    }
  }

  // ---------- big-endian counters ----------

  function Be64(n: U64): (b: Bytes)
    ensures |b| == 8
  {
    R.Fixed(256, n, 8)
  }

  function U64FromBytes(b: Bytes): (r: Option<U64>)
  {
    if |b| == 8 then U64Range(b); Some(R.Val(256, b)) else None
  }

  lemma Pow256()
    ensures R.Pow(256, 8) == 0x1_0000_0000_0000_0000
  {
    R.PowAdd(256, 4, 4);
    assert R.Pow(256, 4) == 0x1_0000_0000;
  }

  lemma U64Range(b: Bytes)
    requires |b| == 8
    ensures R.Val(256, b) < 0x1_0000_0000_0000_0000
  {
    R.ValBound(256, b);
    Pow256();
  }

  lemma U64RoundTrip(n: U64)
    ensures U64FromBytes(Be64(n)) == Some(n)
  {
    Pow256();
    R.ValFixed(256, n, 8);
  }

  lemma Be64Injective(m: U64, n: U64)
    requires Be64(m) == Be64(n)
    ensures m == n
  {
    U64RoundTrip(m);
    U64RoundTrip(n);
  }

  /** Byte order of equally long strings is the order of the numbers they write. */
  lemma {:induction false} OrderIsValue(a: Bytes, b: Bytes)
    requires |a| == |b|
    ensures LexLe(a, b) <==> R.Val(256, a) <= R.Val(256, b)
  {
    if a != [] {
      assert a == [a[0]] + a[1..] && b == [b[0]] + b[1..];
      if a[0] == b[0] {
        OrderIsValue(a[1..], b[1..]);
        R.ValCons(256, a[0], a[1..]);
        R.ValCons(256, b[0], b[1..]);
      } else if a[0] < b[0] {
        R.FirstDigitDecides(256, a[0], a[1..], b[0], b[1..]);
      } else {
        R.FirstDigitDecides(256, b[0], b[1..], a[0], a[1..]);
      }
    }
  }

  lemma Be64Order(m: U64, n: U64)
    ensures LexLe(Be64(m), Be64(n)) <==> m <= n
  {
    OrderIsValue(Be64(m), Be64(n));
    Pow256();
    R.ValFixed(256, m, 8);
    R.ValFixed(256, n, 8);
  }

  // ---------- identifiers ----------

  /** Identifiers, event types and push keys are stored as their UTF-8 bytes. */
  type Text = b: Bytes | SEP !in b witness []

  type Scalar = c: nat | c < 0x11_0000 && !(0xd800 <= c < 0xe000)

  /** UTF-8 as in section 3 of RFC 3629. */
  function Utf8(c: Scalar): Bytes {
    if c < 0x80 then [c]
    else if c < 0x800 then [0xc0 + c / 64, 0x80 + c % 64]
    else if c < 0x1_0000 then [0xe0 + c / 4096, 0x80 + c / 64 % 64, 0x80 + c % 64]
    else [0xf0 + c / 262144, 0x80 + c / 4096 % 64, 0x80 + c / 64 % 64, 0x80 + c % 64]
  }

  function Utf8String(s: seq<Scalar>): Bytes {
    if s == [] then [] else Utf8(s[0]) + Utf8String(s[1..])
  }

  /** Why 0xff separates: it occurs in no UTF-8 text. */
  lemma {:induction false} Utf8IsText(s: seq<Scalar>)
    ensures SEP !in Utf8String(s)
  {
    if s != [] {
      assert SEP !in Utf8(s[0]);
      Utf8IsText(s[1..]);
    }
  }

  // ---------- splitting at separators ----------

  /** The part before the first separator and, if there is one, the rest after it. */
  function SplitOnce(b: Bytes): (r: (Text, Option<Bytes>))
    ensures r.1.None? ==> r.0 == b
    ensures r.1.Some? ==> b == r.0 + [SEP] + r.1.value
  {
    if b == [] then ([], None)
    else if b[0] == SEP then ([], Some(b[1..]))
    else
      var (head, rest) := SplitOnce(b[1..]);
      ([b[0]] + head, rest)
  }

  lemma {:induction false} SplitOnceJoin(t: Text, rest: Bytes)
    ensures SplitOnce(t + [SEP] + rest) == (t, Some(rest))
  {
    var b := t + [SEP] + rest;
    if t == [] {
      assert b[1..] == rest;
    } else {
      SplitOnceJoin(t[1..], rest);
      assert b[1..] == t[1..] + [SEP] + rest;
      assert t == [t[0]] + t[1..];
    }
  }

  /** The part after the last separator. */
  function AfterLast(b: Bytes): (r: Text)
  {
    if b == [] || b[|b| - 1] == SEP then [] else AfterLast(b[..|b| - 1]) + [b[|b| - 1]]
  }

  lemma {:induction false} AfterLastJoin(b: Bytes, t: Text)
    ensures AfterLast(b + [SEP] + t) == t
  {
    var s := b + [SEP] + t;
    if t != [] {
      var n := |t| - 1;
      assert s[..|s| - 1] == b + [SEP] + t[..n];
      AfterLastJoin(b, t[..n]);
      assert t == t[..n] + [t[n]];
    }
  }

  /** A key `t sep rest` starts with `u sep more` exactly when the first parts agree and the
      remainder starts with the remainder. */
  lemma PartPrefix(t: Text, rest: Bytes, u: Text, more: Bytes)
    ensures u + [SEP] + more <= t + [SEP] + rest <==> u == t && more <= rest
  {
    var x, y := u + [SEP] + more, t + [SEP] + rest;
    if x <= y {
      var tail := y[|x|..];
      assert y == u + [SEP] + (more + tail);
      SplitOnceJoin(u, more + tail);
      SplitOnceJoin(t, rest);
      assert rest == more + tail;
    }
    if u == t && more <= rest {
      assert x + rest[|more|..] == y;
    }
  }

  lemma PartInjective(t: Text, rest: Bytes, u: Text, more: Bytes)
    requires t + [SEP] + rest == u + [SEP] + more
    ensures t == u && rest == more
  {
    SplitOnceJoin(t, rest);
    SplitOnceJoin(u, more);
  }

  // ---------- keys of two parts ----------

  /** `a sep b sep`, the prefix of every composite key with two leading parts. */
  function Pair(a: Text, b: Text): Bytes {
    a + [SEP] + b + [SEP]
  }

  lemma PairNested(a: Text, b: Text, rest: Bytes)
    ensures Pair(a, b) + rest == a + [SEP] + (b + [SEP] + rest)
  {
  }

  /** Only keys of the same two parts start with a pair. */
  lemma PairPrefix(a: Text, b: Text, c: Text, d: Text, rest: Bytes)
    ensures Pair(a, b) <= Pair(c, d) + rest <==> a == c && b == d
  {
    PairNested(c, d, rest);
    PairNested(a, b, []);
    assert Pair(a, b) + [] == Pair(a, b);
    PartPrefix(c, d + [SEP] + rest, a, b + [SEP] + []);
    PartPrefix(d, rest, b, []);
  }

  lemma PairInjective(a: Text, b: Text, x: Bytes, c: Text, d: Text, y: Bytes)
    requires Pair(a, b) + x == Pair(c, d) + y
    ensures a == c && b == d && x == y
  {
    PairNested(a, b, x);
    PairNested(c, d, y);
    PartInjective(a, b + [SEP] + x, c, d + [SEP] + y);
    PartInjective(b, x, d, y);
  }

  /** Seeking to a counter below a prefix skips exactly the smaller counters. */
  lemma CounterSeek(prefix: Bytes, n: U64, c: U64, rest: Bytes)
    ensures LexLe(prefix + Be64(n), prefix + (Be64(c) + rest)) <==> n <= c
  {
    LexCommonPrefix(prefix, Be64(n), Be64(c) + rest);
    Be64Order(n, c);
    if n == c {
      PrefixLe(Be64(n), Be64(c) + rest);
    } else {
      if Be64(n) == Be64(c) { Be64Injective(n, c); }
      LexHeads(Be64(n), [], Be64(c), rest);
      assert Be64(n) + [] == Be64(n);
    }
  }
}

/** The wallet-address codec of the client: base58 with leading-zero handling, lower-case hex,
    and the `solana_` Matrix localpart that client and server must derive alike. */
module Base58 {
  import opened Radix
  import opened Wrappers
  import B = Bytes

  type Byte = B.Byte


  const BASE58_ALPHABET: string :=
    "123456789" + "ABCDEFGH" + "JKLMN" + "PQRSTUVWXYZ" + "abcdefghijk" + "mnopqrstuvwxyz"
  const SOLANA_LOCALPART_PREFIX: string := "solana_"

  // ---------- the alphabet ----------

  /** The code point of the `i`-th alphabet character; the runs skip I, O and l. */
  ghost function CodePoint(i: nat): int
    requires i < 58
  {
    if i < 9 then 49 + i
    else if i < 17 then 56 + i
    else if i < 22 then 57 + i
    else if i < 33 then 58 + i
    else if i < 44 then 64 + i
    else 65 + i
  }

  lemma AlphabetAt(i: nat)
    requires i < 58
    ensures |BASE58_ALPHABET| == 58 && BASE58_ALPHABET[i] as int == CodePoint(i)
  {
    var a, b, c := "123456789", "ABCDEFGH", "JKLMN";
    var d, e, f := "PQRSTUVWXYZ", "abcdefghijk", "mnopqrstuvwxyz";
    assert i < 9 ==> BASE58_ALPHABET[i] == a[i];
    assert 9 <= i < 17 ==> BASE58_ALPHABET[i] == b[i - 9];
    assert 17 <= i < 22 ==> BASE58_ALPHABET[i] == c[i - 17];
    assert 22 <= i < 33 ==> BASE58_ALPHABET[i] == d[i - 22];
    assert 33 <= i < 44 ==> BASE58_ALPHABET[i] == e[i - 33];
    assert 44 <= i < 58 ==> BASE58_ALPHABET[i] == f[i - 44];
  }

  /** The first position of `c` in the alphabet, or -1 when it does not occur. */
  function IndexOf(c: char): (r: int)
    ensures r == -1 || 0 <= r < |BASE58_ALPHABET|
    ensures r == -1 <==> c !in BASE58_ALPHABET
    ensures r != -1 ==> BASE58_ALPHABET[r] == c
  {
    if c in BASE58_ALPHABET then
      FirstExists(BASE58_ALPHABET, c);
      var i :| 0 <= i < |BASE58_ALPHABET| && IsFirst(BASE58_ALPHABET, c, i);
      i
    else -1
  }

  predicate IsFirst(s: string, c: char, i: nat) {
    i < |s| && s[i] == c && forall j :: 0 <= j < i ==> s[j] != c
  }

  lemma {:induction false} FirstExists(s: string, c: char)
    requires c in s
    ensures exists i :: 0 <= i < |s| && IsFirst(s, c, i)
  {
    if s[0] == c {
      assert IsFirst(s, c, 0);
    } else {
      FirstExists(s[1..], c);
      var i :| 0 <= i < |s[1..]| && IsFirst(s[1..], c, i);
      assert IsFirst(s, c, i + 1);
    }
  }

  lemma IndexOfAlphabet(i: nat)
    requires i < 58
    ensures |BASE58_ALPHABET| == 58 && IndexOf(BASE58_ALPHABET[i]) == i
  {
    AlphabetAt(i);
    var r := IndexOf(BASE58_ALPHABET[i]);
    AlphabetAt(r);
  }

  function Text(ds: seq<nat>): (s: string)
    requires Digits(58, ds)
    ensures |s| == |ds|
  {
    AlphabetAt(0);
    seq(|ds|, i requires 0 <= i < |ds| => BASE58_ALPHABET[ds[i]])
  }

  predicate InAlphabet(s: string) {
    forall i :: 0 <= i < |s| ==> IndexOf(s[i]) != -1
  }

  function Indices(s: string): (ds: seq<nat>)
    requires InAlphabet(s)
    ensures |ds| == |s| && Digits(58, ds)
  {
    AlphabetAt(0);
    seq(|s|, i requires 0 <= i < |s| => IndexOf(s[i]))
  }

  lemma IndicesText(ds: seq<nat>)
    requires Digits(58, ds)
    ensures InAlphabet(Text(ds)) && Indices(Text(ds)) == ds
  {
    forall i | 0 <= i < |ds|
      ensures IndexOf(Text(ds)[i]) == ds[i]
    {
      IndexOfAlphabet(ds[i]);
    }
  }

  lemma TextIndices(s: string)
    requires InAlphabet(s)
    ensures Text(Indices(s)) == s
  {
  }

  // ---------- the encoder and the two decoders, as values ----------

  /** How many leading elements of `s` equal `x`. */
  function Leading<T(==)>(s: seq<T>, x: T): (n: nat)
    ensures n <= |s|
    ensures forall i :: 0 <= i < n ==> s[i] == x
    ensures n < |s| ==> s[n] != x
  {
    if s == [] || s[0] != x then 0 else 1 + Leading(s[1..], x)
  }

  function Ones(n: nat): (s: string)
    ensures |s| == n && forall i :: 0 <= i < n ==> s[i] == '1'
  {
    seq(n, _ => '1')
  }

  function Encode(bytes: seq<Byte>): (s: string) {
    Ones(Leading(bytes, 0)) + Text(Minimal(58, Val(256, bytes)))
  }

  /** The strict decoder the server uses: every leading `1` is a zero byte and the rest is a
      number written with as few bytes as possible. */
  function StrictDecode(s: string): (r: Option<seq<Byte>>) {
    if InAlphabet(s) then
      Some(Zeros(Leading(s, '1')) + Minimal(256, Val(58, Indices(s))))
    else None
  }

  /** The client's decoder: always 32 bytes, higher ones dropped. */
  function LenientDecode(s: string): (r: Option<seq<Byte>>) {
    if InAlphabet(s) then Some(Fixed(256, Val(58, Indices(s)), 32)) else None
  }

  // ---------- the encoder and the strict decoder are inverse ----------

  lemma SplitLeading<T>(s: seq<T>, x: T, pre: seq<T>, rest: seq<T>)
    requires s == pre + rest && (forall i :: 0 <= i < |pre| ==> pre[i] == x)
    requires rest != [] ==> rest[0] != x
    ensures Leading(s, x) == |pre|
  {
    assert forall i :: 0 <= i < |pre| ==> s[i] == x;
    assert rest != [] ==> s[|pre|] == rest[0];
  }

  /** Writing a digit string after its leading zeros are split off. */
  lemma MinimalAfterLeading(b: nat, ds: seq<nat>)
    requires b >= 2 && Digits(b, ds)
    ensures Zeros(Leading(ds, 0)) + Minimal(b, Val(b, ds)) == ds
  {
    var z := Leading(ds, 0);
    assert ds == Zeros(z) + ds[z..];
    ValLeadingZeros(b, z, ds[z..]);
    MinimalVal(b, ds[z..]);
  }

  lemma AlphabetZero(c: char)
    requires IndexOf(c) != -1
    ensures c == '1' <==> IndexOf(c) == 0
  {
    AlphabetAt(0);
    IndexOfAlphabet(0);
  }

  lemma {:induction false} LeadingIndices(s: string)
    requires InAlphabet(s)
    ensures Leading(Indices(s), 0) == Leading(s, '1')
  {
    if s != [] {
      AlphabetZero(s[0]);
      assert Indices(s)[1..] == Indices(s[1..]);
      LeadingIndices(s[1..]);
    }
  }

  lemma IndicesEncode(bytes: seq<Byte>)
    ensures InAlphabet(Encode(bytes))
    ensures Indices(Encode(bytes)) == Zeros(Leading(bytes, 0)) + Minimal(58, Val(256, bytes))
  {
    var z, ds := Leading(bytes, 0), Minimal(58, Val(256, bytes));
    TextOfZeros(z, ds);
    IndicesText(Zeros(z) + ds);
  }

  /** Every byte string of every length is recovered by the strict decoder. */
  lemma StrictDecodeEncode(bytes: seq<Byte>)
    ensures StrictDecode(Encode(bytes)) == Some(bytes)
  {
    hide Encode, Leading, Indices, InAlphabet, Val, Minimal;
    var z, ds, s := Leading(bytes, 0), Minimal(58, Val(256, bytes)), Encode(bytes);
    IndicesEncode(bytes);
    assert Val(58, Indices(s)) == Val(256, bytes) by {
      ValLeadingZeros(58, z, ds);
      ValMinimal(58, Val(256, bytes));
    }
    assert Leading(s, '1') == z by {
      LeadingIndices(s);
      SplitLeading(Indices(s), 0, Zeros(z), ds);
    }
    MinimalAfterLeading(256, bytes);
  }

  lemma TextOfZeros(z: nat, ds: seq<nat>)
    requires Digits(58, ds)
    ensures Digits(58, Zeros(z) + ds) && Text(Zeros(z) + ds) == Ones(z) + Text(ds)
  {
    AlphabetAt(0);
  }

  /** Every string the strict decoder accepts is the encoding of its bytes. */
  lemma EncodeStrictDecode(s: string)
    requires StrictDecode(s).Some?
    ensures Encode(StrictDecode(s).value) == s
  {
    var ds := Indices(s);
    var z, n := Leading(s, '1'), Val(58, ds);
    var bytes := Zeros(z) + Minimal(256, n);
    LeadingIndices(s);
    MinimalAfterLeading(58, ds);
    ValLeadingZeros(256, z, Minimal(256, n));
    ValMinimal(256, n);
    SplitLeading(bytes, 0, Zeros(z), Minimal(256, n));
    TextOfZeros(z, Minimal(58, n));
    TextIndices(s);
  }

  lemma EncodeInjective(a: seq<Byte>, b: seq<Byte>)
    requires Encode(a) == Encode(b)
    ensures a == b
  {
    StrictDecodeEncode(a);
    StrictDecodeEncode(b);
  }

  // ---------- the client's decoder against the strict one ----------

  /** The two decoders reject the same strings, and they agree exactly on addresses of 32 bytes. */
  lemma DecodersAgree(s: string)
    ensures StrictDecode(s).Some? <==> LenientDecode(s).Some?
    ensures StrictDecode(s).Some? ==>
              (LenientDecode(s) == StrictDecode(s) <==> |StrictDecode(s).value| == 32)
  {
    if InAlphabet(s) && |StrictDecode(s).value| == 32 {
      var n := Val(58, Indices(s));
      var bytes: seq<nat> := Zeros(Leading(s, '1')) + Minimal(256, n);
      ValLeadingZeros(256, Leading(s, '1'), Minimal(256, n));
      ValMinimal(256, n);
      FixedVal(256, bytes);
    }
  }

  /** On any string, the client's decoder gives the last 32 bytes of what the strict one gives, with zeros put in
      front if there are fewer. */
  lemma LenientIsSuffix(s: string)
    requires StrictDecode(s).Some?
    ensures var padded: seq<nat> := Zeros(32) + StrictDecode(s).value;
      LenientDecode(s) == Some(padded[|padded| - 32..])
  {
    var z, n := Leading(s, '1'), Val(58, Indices(s));
    var bytes: seq<nat> := Zeros(z) + Minimal(256, n);
    ValLeadingZeros(256, z, Minimal(256, n));
    ValMinimal(256, n);
    ValLeadingZeros(256, 32, bytes);
    FixedSuffix(256, Zeros(32) + bytes, 32);
  }

  lemma LenientDecodeEncode(key: seq<Byte>)
    requires |key| == 32
    ensures LenientDecode(Encode(key)) == Some(key)
  {
    StrictDecodeEncode(key);
    DecodersAgree(Encode(key));
  }

  // ---------- the length of an address ----------

  lemma PowersOf58()
    ensures Pow(58, 44) == 389790918707373377135528568990913592653094657612049369038476873218241589149696
  {
    assert Pow(58, 4) == 11316496;
    PowAdd(58, 4, 4);
    assert Pow(58, 8) == 128063081718016;
    PowAdd(58, 8, 3);
    assert Pow(58, 11) == 24986644000165537792;
    PowAdd(58, 11, 11);
    assert Pow(58, 22) == 624332378391008467754527498760580235264;
    PowAdd(58, 22, 22);
  }

  lemma PowersOf256()
    ensures Pow(256, 32) == 115792089237316195423570985008687907853269984665640564039457584007913129639936
  {
    assert Pow(256, 4) == 4294967296;
    PowAdd(256, 4, 4);
    assert Pow(256, 8) == 18446744073709551616;
    PowAdd(256, 8, 8);
    assert Pow(256, 16) == 340282366920938463463374607431768211456;
    PowAdd(256, 16, 16);
  }

  lemma CancelFactor(x: nat, p: nat, q: nat, r: nat)
    requires p * q < x * r && r <= q
    ensures p < x
  {
    MulLe(p, r, q);
    if x <= p { MulLe(r, x, p); }
  }

  /** `n` bytes need at most `n + 12` base58 digits, for `n` up to 32. */
  lemma DigitBound(v: nat, n: nat)
    requires n <= 32 && v < Pow(256, n)
    ensures v < Pow(58, n + 12)
  {
    PowersOf58();
    PowersOf256();
    PowAdd(256, n, 32 - n);
    PowAdd(58, n + 12, 32 - n);
    PowBase(58, 256, 32 - n);
    CancelFactor(Pow(58, n + 12), Pow(256, n), Pow(256, 32 - n), Pow(58, 32 - n));
  }

  lemma PowBase(a: nat, b: nat, e: nat)
    requires 0 < a <= b
    ensures Pow(a, e) <= Pow(b, e)
  {
    if e > 0 {
      PowBase(a, b, e - 1);
      MulLe(a, Pow(a, e - 1), Pow(b, e - 1));
      MulLe(Pow(b, e - 1), a, b);
    }
  }

  lemma PowReflects(b: nat, m: nat, n: nat)
    requires b >= 2 && Pow(b, m) < Pow(b, n)
    ensures m < n
  {
    if n <= m { PowMono(b, n, m); }
  }

  lemma DigitCount(v: nat, lo: nat, hi: nat)
    requires Pow(58, lo) <= v < Pow(58, hi)
    ensures lo < |Minimal(58, v)| <= hi
  {
    var ds := Minimal(58, v);
    ValMinimal(58, v);
    assert v > 0 && ds != [];
    ValLower(58, ds);
    ValBound(58, ds);
    PowReflects(58, |ds| - 1, hi);
    PowReflects(58, lo, |ds|);
  }

  /** `n` bytes of which the first is not zero need between `n` and `n + 12` digits. */
  lemma MinimalLength(bytes: seq<nat>)
    requires 0 < |bytes| <= 32 && Digits(256, bytes) && bytes[0] != 0
    ensures |bytes| <= |Minimal(58, Val(256, bytes))| <= |bytes| + 12
  {
    var v, n := Val(256, bytes), |bytes|;
    assert v < Pow(58, n + 12) by {
      ValBound(256, bytes);
      DigitBound(v, n);
    }
    assert Pow(58, n - 1) <= v by {
      ValLower(256, bytes);
      PowBase(58, 256, n - 1);
    }
    DigitCount(v, n - 1, n + 12);
  }

  /** A 32-byte key is written with at least 32 and at most 44 characters. */
  lemma EncodeLength(key: seq<Byte>)
    requires |key| == 32
    ensures 32 <= |Encode(key)| <= 44
  {
    var z := Leading(key, 0);
    var rest: seq<nat> := key[z..];
    assert key == Zeros(z) + rest;
    ValLeadingZeros(256, z, rest);
    if rest != [] { MinimalLength(rest); }
  }

  // ---------- the loops of the codec ----------

  lemma TextSnoc(ds: seq<nat>, d: nat)
    requires Digits(58, ds) && d < 58
    ensures |BASE58_ALPHABET| == 58 && Text(ds + [d]) == Text(ds) + [BASE58_ALPHABET[d]]
  {
    AlphabetAt(0);
  }

  lemma IndexStep(s: string, c: char)
    requires InAlphabet(s) && IndexOf(c) != -1
    ensures InAlphabet(s + [c])
    ensures Val(58, Indices(s + [c])) == Val(58, Indices(s)) * 58 + IndexOf(c)
  {
    assert Indices(s + [c]) == Indices(s) + [IndexOf(c)];
    ValSnoc(58, Indices(s), IndexOf(c));
  }

  /** First loop of the encoder: the bytes as one number. */
  method ReadBytes(bytes: seq<Byte>) returns (num: nat)
    ensures num == Val(256, bytes)
  {
    num := 0;
    for i := 0 to |bytes|
      invariant num == Val(256, bytes[..i])
    {
      ValSnoc(256, bytes[..i], bytes[i]);
      assert bytes[..i + 1] == bytes[..i] + [bytes[i]];
      num := num * 256 + bytes[i];
    }
    assert bytes[..|bytes|] == bytes;
  }

  /** Second loop of the encoder: digits are put in front, least significant first. */
  method WriteDigits(n: nat) returns (encoded: string)
    ensures encoded == Text(Minimal(58, n))
  {
    var num := n;
    encoded := "";
    while num > 0
      invariant Text(Minimal(58, num)) + encoded == Text(Minimal(58, n))
      decreases num
    {
      var remainder := num % 58;
      DivShrinks(58, num);
      TextSnoc(Minimal(58, num / 58), remainder);
      num := num / 58;
      encoded := [BASE58_ALPHABET[remainder]] + encoded;
    }
  }

  /** Third loop of the encoder: one `1` for each leading zero byte. */
  method PutOnes(bytes: seq<Byte>, digits: string) returns (encoded: string)
    ensures encoded == Ones(Leading(bytes, 0)) + digits
  {
    encoded := digits;
    var i := 0;
    while i < |bytes| && bytes[i] == 0
      invariant i <= Leading(bytes, 0)
      invariant encoded == Ones(i) + digits
    {
      assert Ones(i + 1) == ['1'] + Ones(i);
      encoded := "1" + encoded;
      i := i + 1;
    }
  }

  method BytesToBase58(bytes: seq<Byte>) returns (encoded: string)
    ensures encoded == Encode(bytes)
    ensures StrictDecode(encoded) == Some(bytes)
  {
    var num := ReadBytes(bytes);
    encoded := WriteDigits(num);
    encoded := PutOnes(bytes, encoded);
    StrictDecodeEncode(bytes);
  }

  /** First loop of the decoder; fails with the first character outside the alphabet. */
  method ReadDigits(base58: string) returns (r: Result<nat, char>)
    ensures r.Ok? ==> InAlphabet(base58) && r.value == Val(58, Indices(base58))
    ensures r.Err? ==> exists i :: 0 <= i < |base58| && r.error == base58[i]
                                   && IndexOf(base58[i]) == -1 && InAlphabet(base58[..i])
  {
    var num: nat := 0;
    for k := 0 to |base58|
      invariant InAlphabet(base58[..k])
      invariant num == Val(58, Indices(base58[..k]))
    {
      var index := IndexOf(base58[k]);
      if index == -1 {
        return Err(base58[k]);
      }
      assert base58[..k + 1] == base58[..k] + [base58[k]];
      IndexStep(base58[..k], base58[k]);
      num := num * 58 + index;
    }
    assert base58[..|base58|] == base58;
    return Ok(num);
  }

  /** Second loop of the decoder: 32 bytes from the low end; what is left of the number is dropped. */
  method WriteBytes(n: nat) returns (out: seq<Byte>)
    ensures out == Fixed(256, n, 32)
  {
    var num := n;
    var bytes := new Byte[32];
    var i := 31;
    while i >= 0
      invariant -1 <= i <= 31
      invariant Fixed(256, num, i + 1) + bytes[i + 1..] == Fixed(256, n, 32)
    {
      ghost var done := bytes[i + 1..];
      bytes[i] := num % 256;
      assert bytes[i..] == [num % 256] + done;
      num := num / 256;
      i := i - 1;
    }
    assert Fixed(256, num, 0) + bytes[0..] == bytes[..];
    out := bytes[..];
  }

  method Base58ToBytes(base58: string) returns (r: Result<seq<Byte>, char>)
    ensures r.Ok? ==> LenientDecode(base58) == Some(r.value)
    ensures r.Err? ==> exists i :: 0 <= i < |base58| && r.error == base58[i]
                                   && IndexOf(base58[i]) == -1 && InAlphabet(base58[..i])
  {
    var num := ReadDigits(base58);
    if num.Err? {
      return Err(num.error);
    }
    var bytes := WriteBytes(num.value);
    return Ok(bytes);
  }

  // ---------- hex ----------

  function HexChar(d: nat): (c: char)
    requires d < 16
  {
    if d < 10 then '0' + d as char else 'a' + (d - 10) as char
  }

  function BytesToHex(bytes: seq<Byte>): (s: string)
    ensures |s| == 2 * |bytes|
  {
    if bytes == [] then ""
    else [HexChar(bytes[0] / 16), HexChar(bytes[0] % 16)] + BytesToHex(bytes[1..])
  }

  function HexValue(c: char): (r: Option<nat>)
    ensures r.Some? ==> r.value < 16
  {
    if '0' <= c <= '9' then Some(c as int - '0' as int)
    else if 'a' <= c <= 'f' then Some(c as int - 'a' as int + 10)
    else if 'A' <= c <= 'F' then Some(c as int - 'A' as int + 10)
    else None
  }

  /** The longest prefix of hexadecimal digits. */
  function HexPrefix(s: string): (ds: seq<nat>) {
    if s == "" || HexValue(s[0]).None? then []
    else [HexValue(s[0]).value] + HexPrefix(s[1..])
  }

  predicate IsWhiteSpace(c: char) {
    '\t' <= c <= '\r' || c == ' ' || c == '\U{A0}' || c == '\U{1680}' || '\U{2000}' <= c <= '\U{200A}'
    || c == '\U{2028}' || c == '\U{2029}' || c == '\U{202F}' || c == '\U{205F}' || c == '\U{3000}' || c == '\U{FEFF}'
  }

  function TrimStart(s: string): string {
    if s != "" && IsWhiteSpace(s[0]) then TrimStart(s[1..]) else s
  }

  /** `parseInt(s, 16)`: leading white space, a sign and a `0x` are skipped, trailing text is
      ignored, and no digit at all is not a number. */
  function ParseIntHex(s: string): (r: Option<int>) {
    var t := TrimStart(s);
    var signed := t != "" && (t[0] == '-' || t[0] == '+');
    var u := if signed then t[1..] else t;
    var v := if |u| >= 2 && u[0] == '0' && (u[1] == 'x' || u[1] == 'X') then u[2..] else u;
    var ds := HexPrefix(v);
    var n: int := Val(16, ds);
    if ds == [] then None else if signed && t[0] == '-' then Some(-n) else Some(n)
  }

  /** What storing a number into a byte array keeps of it. */
  function ToUint8(r: Option<int>): (b: Byte) {
    if r.Some? then r.value % 256 else 0
  }

  /** An odd trailing character is parsed by the loop but has no byte to go to. */
  function HexDecode(hex: string): (bytes: seq<Byte>)
    ensures |bytes| == |hex| / 2
  {
    if |hex| < 2 then [] else [ToUint8(ParseIntHex(hex[..2]))] + HexDecode(hex[2..])
  }

  lemma {:induction false} HexDecodeAt(hex: string, k: nat)
    requires 2 * k + 2 <= |hex|
    ensures HexDecode(hex)[k] == ToUint8(ParseIntHex(hex[2 * k..2 * k + 2]))
  {
    if k == 0 {
      assert hex[..2] == hex[0..2];
    } else {
      HexDecodeAt(hex[2..], k - 1);
      assert hex[2..][2 * (k - 1)..2 * (k - 1) + 2] == hex[2 * k..2 * k + 2];
    }
  }

  method HexToBytes(hex: string) returns (out: seq<Byte>)
    ensures out == HexDecode(hex)
  {
    var bytes := new Byte[|hex| / 2];
    var i := 0;
    ghost var k := 0;
    while i < |hex|
      invariant i == 2 * k && i <= |hex| + 1
      invariant forall j :: 0 <= j < k && j < bytes.Length ==> bytes[j] == HexDecode(hex)[j]
    {
      var end := if i + 2 <= |hex| then i + 2 else |hex|;
      var value := ToUint8(ParseIntHex(hex[i..end]));
      if i / 2 < bytes.Length {
        HexDecodeAt(hex, k);
        bytes[i / 2] := value;
      }
      i, k := i + 2, k + 1;
    }
    out := bytes[..];
  }

  lemma HexCharValue(d: nat)
    requires d < 16
    ensures HexValue(HexChar(d)) == Some(d)
    ensures !IsWhiteSpace(HexChar(d)) && HexChar(d) !in "-+xX"
  {
  }

  /** Each byte is written as two lower-case digits, the higher one first. */
  lemma {:induction false} HexAt(bytes: seq<Byte>, k: nat)
    requires k < |bytes|
    ensures BytesToHex(bytes)[2 * k] == "0123456789abcdef"[bytes[k] / 16]
    ensures BytesToHex(bytes)[2 * k + 1] == "0123456789abcdef"[bytes[k] % 16]
    decreases |bytes|
  {
    HexCharLower(bytes[0] / 16);
    HexCharLower(bytes[0] % 16);
    if k > 0 { HexAt(bytes[1..], k - 1); }
  }

  lemma HexIsLowerCase(bytes: seq<Byte>, i: nat)
    requires i < |BytesToHex(bytes)|
    ensures BytesToHex(bytes)[i] in "0123456789abcdef"
  {
    var k := i / 2;
    HexAt(bytes, k);
    assert i == 2 * k || i == 2 * k + 1;
  }

  lemma HexCharLower(d: nat)
    requires d < 16
    ensures HexChar(d) == "0123456789abcdef"[d]
  {
  }

  lemma ParseTwoDigits(hi: nat, lo: nat)
    requires hi < 16 && lo < 16
    ensures ParseIntHex([HexChar(hi), HexChar(lo)]) == Some(hi * 16 + lo)
  {
    HexCharValue(hi);
    HexCharValue(lo);
    var s := [HexChar(hi), HexChar(lo)];
    assert s[1] in [s[1]] && s[0] in [s[0]];
    assert TrimStart(s) == s;
    assert s[1..] == [s[1]] && [s[1]][1..] == [];
    assert HexPrefix([s[1]]) == [lo] + HexPrefix([]) == [lo];
    assert HexPrefix(s) == [hi] + [lo] == [hi, lo];
    ValSnoc(16, [hi], lo);
    ValSnoc(16, [], hi);
    assert [] + [hi] == [hi];
  }

  lemma {:induction false} HexDecodeEncode(bytes: seq<Byte>)
    ensures HexDecode(BytesToHex(bytes)) == bytes
  {
    if bytes != [] {
      var b, s := bytes[0], BytesToHex(bytes);
      ParseTwoDigits(b / 16, b % 16);
      HexDecodeEncode(bytes[1..]);
      assert s[..2] == [HexChar(b / 16), HexChar(b % 16)];
      assert s[2..] == BytesToHex(bytes[1..]);
    }
  }

  // ---------- Matrix localparts ----------

  function Base58ToHexLocalpart(address: string): (r: Option<string>) {
    var key := LenientDecode(address);
    if key.Some? then Some(SOLANA_LOCALPART_PREFIX + BytesToHex(key.value)) else None
  }

  function HexLocalpartToBase58(localpart: string): string {
    var hex := if SOLANA_LOCALPART_PREFIX <= localpart
      then localpart[|SOLANA_LOCALPART_PREFIX|..] else localpart;
    Encode(HexDecode(hex))
  }

  /** What a successful login makes the user's localpart: the address must decode to 32 bytes. */
  function ServerLocalpart(address: string): (r: Option<string>) {
    var key := StrictDecode(address);
    if key.Some? && |key.value| == 32
    then Some("solana_" + BytesToHex(key.value)) else None
  }

  /** Every address the server accepts gets the same 71-character localpart on the client, and
      the client turns that localpart back into the address. */
  lemma LocalpartsAgree(address: string)
    requires ServerLocalpart(address).Some?
    ensures Base58ToHexLocalpart(address) == ServerLocalpart(address)
    ensures |ServerLocalpart(address).value| == 71 && "solana_" <= ServerLocalpart(address).value
    ensures forall i :: 7 <= i < 71 ==> ServerLocalpart(address).value[i] in "0123456789abcdef"
    ensures HexLocalpartToBase58(ServerLocalpart(address).value) == address
  {
    var key := StrictDecode(address).value;
    var localpart := ServerLocalpart(address).value;
    DecodersAgree(address);
    assert localpart[|SOLANA_LOCALPART_PREFIX|..] == BytesToHex(key);
    forall i | 7 <= i < 71 ensures localpart[i] in "0123456789abcdef" { HexIsLowerCase(key, i - 7); }
    HexDecodeEncode(key);
    EncodeStrictDecode(address);
  }

  /** Distinct addresses never share an account. */
  lemma LocalpartInjective(a: string, b: string)
    requires ServerLocalpart(a).Some? && ServerLocalpart(a) == ServerLocalpart(b)
    ensures a == b
  {
    LocalpartsAgree(a);
    LocalpartsAgree(b);
  }

  /** The client alone accepts more: the empty string and the 32-byte zero key collide there,
      and only the second is an address for the server. */
  lemma ClientCollision()
    ensures Base58ToHexLocalpart("") == Base58ToHexLocalpart(Encode(Zeros(32)))
    ensures ServerLocalpart("").None? && ServerLocalpart(Encode(Zeros(32))).Some?
  {
    var zero: seq<Byte> := Zeros(32);
    LenientDecodeEncode(zero);
    StrictDecodeEncode(zero);
    FixedVal(256, zero);
    ValZeros(256, 32);
    assert Indices("") == [];
    assert StrictDecode("").value == Zeros(0) + Minimal(256, 0) == [];
  }
}

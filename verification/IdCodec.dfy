/** Identifiers: `_encode_crockford` and `_new_ulid` of agent_obs/observability.py against `_to_hex` and the id
    fields of `_span_to_otlp` in agent_obs/exporters/langfuse_exporter.py. Id sizes follow the OTLP
    specification ("JSON Protobuf Encoding") and sections 3.2.2.3 and 3.2.2.4 of W3C Trace Context. */
module IdCodec {
  import opened Basics
  import opened Sequences

  // ---------------------------------------------------------------- products

  lemma MulMono(a: int, b: int, c: nat)
    requires a <= b
    ensures a * c <= b * c
  {
    assert (b - a) * c >= 0;
  }

  lemma Distribute(x: int, y: int, c: int)
    ensures (x + y) * c == x * c + y * c
  {
  }

  lemma Regroup3(x: int, y: int, z: int)
    ensures x * y * z == x * (y * z) == y * (x * z)
  {
  }

  /** A multiple of `d` is zero or at least `d` away from zero. */
  lemma SmallMultiple(d: int, x: int)
    requires d > 0
    ensures x == 0 || d * x >= d || d * x <= -d
  {
    if x >= 1 {
      MulMono(1, x, d);
    } else if x <= -1 {
      MulMono(x, -1, d);
    }
  }

  // ---------------------------------------------------------------- positional numerals

  function Pow(b: nat, n: nat): (p: nat)
    requires b >= 1
    ensures p >= 1
  {
    if n == 0 then 1 else b * Pow(b, n - 1)
  }

  lemma {:induction false} PowAdd(b: nat, m: nat, n: nat)
    requires b >= 1
    ensures Pow(b, m + n) == Pow(b, m) * Pow(b, n)
  {
    if m > 0 {
      PowAdd(b, m - 1, n);
      Regroup3(b, Pow(b, m - 1), Pow(b, n));
    }
  }

  /** 2 to the 48, 64 and 80. */
  const BITS48: nat := 0x1_0000_0000_0000
  const BITS64: nat := 0x1_0000_0000_0000_0000
  const BITS80: nat := 0x1_0000_0000_0000_0000_0000

  lemma PowersOf16()
    ensures Pow(16, 16) == BITS64 && Pow(16, 32) == BITS48 * BITS80
  {
    assert Pow(16, 4) == 0x1_0000;
    PowAdd(16, 4, 4);
    PowAdd(16, 8, 8);
    PowAdd(16, 16, 16);
  }

  lemma PowersOf32()
    ensures Pow(32, 16) == BITS80 && Pow(32, 10) == 4 * BITS48
  {
    assert Pow(32, 4) == 0x10_0000 && Pow(32, 2) == 0x400;
    PowAdd(32, 4, 4);
    PowAdd(32, 8, 8);
    PowAdd(32, 8, 2);
  }

  /** 16 hexadecimal digits hold 64 bits, 32 hold 128, and 16 Crockford characters hold 80. */
  lemma PowerSizes()
    ensures Pow(16, 16) == BITS64 && Pow(16, 32) == BITS48 * BITS80
    ensures Pow(32, 16) == BITS80 && Pow(32, 10) == 4 * BITS48
    ensures BITS80 == 0x1_0000 * BITS64
  {
    PowersOf16();
    PowersOf32();
  }

  /** The last `n` digits of `v`, most significant first. */
  function Digits(v: int, n: nat, b: nat): (ds: seq<nat>)
    requires b >= 2
    ensures |ds| == n && AllBelow(ds, b)
    decreases n, v
  {
    if n == 0 then [] else Digits(v / b, n - 1, b) + [v % b]
  }

  predicate AllBelow(ds: seq<nat>, b: nat) {
    forall i :: 0 <= i < |ds| ==> ds[i] < b
  }

  function ValueOf(ds: seq<nat>, b: nat): nat {
    if ds == [] then 0 else ValueOf(ds[..|ds| - 1], b) * b + ds[|ds| - 1]
  }

  lemma ValueAppend(ds: seq<nat>, d: nat, b: nat)
    ensures ValueOf(ds + [d], b) == ValueOf(ds, b) * b + d
  {
    assert (ds + [d])[..|ds|] == ds;
  }

  lemma Remainder(v: int, d: nat, k: int, r: nat)
    requires d > 0 && r < d && v == d * k + r
    ensures v % d == r && v / d == k
  {
    var k', r' := v / d, v % d;
    assert v == d * k' + r';
    Distribute(k, -k', d);
    assert d * (k - k') == r' - r;
    SmallMultiple(d, k - k');
  }

  lemma RemainderSplit(v: int, b: nat, p: nat)
    requires b > 0 && p > 0
    ensures v % (b * p) == ((v / b) % p) * b + v % b
  {
    var q, r := v / b, v % b;
    var k, m := q / p, q % p;
    Distribute(p * k, m, b);
    Regroup3(p, k, b);
    Regroup3(b, p, k);
    MulMono(m + 1, p, b);
    Distribute(m, 1, b);
    assert v == (b * p) * k + (m * b + r);
    Remainder(v, b * p, k, m * b + r);
  }

  /** Decoding `n` digits gives the value modulo `b` to the `n`. */
  lemma {:induction false} DecodeEncode(v: int, n: nat, b: nat)
    requires b >= 2
    ensures ValueOf(Digits(v, n, b), b) == v % Pow(b, n)
    decreases n
  {
    if n > 0 {
      DecodeEncode(v / b, n - 1, b);
      ValueAppend(Digits(v / b, n - 1, b), v % b, b);
      RemainderSplit(v, b, Pow(b, n - 1));
    }
  }

  lemma {:induction false} ValueBound(ds: seq<nat>, b: nat)
    requires b >= 2 && AllBelow(ds, b)
    ensures ValueOf(ds, b) < Pow(b, |ds|)
  {
    if ds != [] {
      var n := |ds| - 1;
      ValueBound(ds[..n], b);
      var v, p := ValueOf(ds[..n], b), Pow(b, n);
      MulMono(v + 1, p, b);
      Distribute(v, 1, b);
    }
  }

  /** Encoding a numeral's value gives the numeral back. */
  lemma {:induction false} EncodeDecode(ds: seq<nat>, b: nat)
    requires b >= 2 && AllBelow(ds, b)
    ensures Digits(ValueOf(ds, b), |ds|, b) == ds
  {
    if ds != [] {
      var n := |ds| - 1;
      EncodeDecode(ds[..n], b);
      var v := ValueOf(ds[..n], b);
      assert v * b == b * v;
      Remainder(v * b + ds[n], b, v, ds[n]);
      assert ds == ds[..n] + [ds[n]];
    }
  }

  /** Equal numerals mean equal values, modulo `b` to the `n`. */
  lemma DigitsInjective(v: int, w: int, n: nat, b: nat)
    requires b >= 2
    ensures Digits(v, n, b) == Digits(w, n, b) <==> v % Pow(b, n) == w % Pow(b, n)
  {
    DecodeEncode(v, n, b);
    DecodeEncode(w, n, b);
    EncodeDecode(Digits(v, n, b), b);
    EncodeDecode(Digits(w, n, b), b);
  }

  lemma ShiftDigit(x: int, p: int, f: int, b: int, d: int)
    ensures (x * p + f) * b + d == x * (b * p) + (f * b + d)
  {
    Distribute(x * p, f, b);
    Regroup3(x, p, b);
    assert p * b == b * p;
  }

  /** Joined numerals: the left part is shifted by the length of the right one. */
  lemma {:induction false} ValueConcat(xs: seq<nat>, ys: seq<nat>, b: nat)
    requires b >= 1
    ensures ValueOf(xs + ys, b) == ValueOf(xs, b) * Pow(b, |ys|) + ValueOf(ys, b)
    decreases |ys|
  {
    if ys == [] {
      assert xs + ys == xs;
    } else {
      var n := |ys| - 1;
      var front := ys[..n];
      ValueConcat(xs, front, b);
      assert xs + ys == (xs + front) + [ys[n]] && ys == front + [ys[n]];
      ValueAppend(xs + front, ys[n], b);
      ValueAppend(front, ys[n], b);
      ShiftDigit(ValueOf(xs, b), Pow(b, n), ValueOf(front, b), b, ys[n]);
    }
  }

  // ---------------------------------------------------------------- order

  /** Dictionary order on numerals of equal length. */
  predicate Precedes(xs: seq<nat>, ys: seq<nat>)
    requires |xs| == |ys|
  {
    xs != [] && (xs[0] < ys[0] || (xs[0] == ys[0] && Precedes(xs[1..], ys[1..])))
  }

  lemma LeadingDigit(ds: seq<nat>, b: nat)
    requires b >= 2 && ds != [] && AllBelow(ds, b)
    ensures ValueOf(ds, b) == ds[0] * Pow(b, |ds| - 1) + ValueOf(ds[1..], b)
    ensures ValueOf(ds[1..], b) < Pow(b, |ds| - 1)
  {
    assert ds == [ds[0]] + ds[1..];
    ValueConcat([ds[0]], ds[1..], b);
    ValueAppend([], ds[0], b);
    assert [] + [ds[0]] == [ds[0]];
    ValueBound(ds[1..], b);
  }

  /** The leading digit decides, whatever follows. */
  lemma LeadDecides(x: nat, y: nat, p: nat, u: nat, v: nat)
    requires x < y && u < p
    ensures x * p + u < y * p + v
  {
    MulMono(x + 1, y, p);
    Distribute(x, 1, p);
  }

  /** Numerals of equal length are in dictionary order exactly when their values are. */
  lemma {:induction false} OrderIsValue(xs: seq<nat>, ys: seq<nat>, b: nat)
    requires b >= 2 && |xs| == |ys| && AllBelow(xs, b) && AllBelow(ys, b)
    ensures Precedes(xs, ys) <==> ValueOf(xs, b) < ValueOf(ys, b)
  {
    if xs != [] {
      OrderIsValue(xs[1..], ys[1..], b);
      LeadingDigit(xs, b);
      LeadingDigit(ys, b);
      var p := Pow(b, |xs| - 1);
      if xs[0] < ys[0] {
        LeadDecides(xs[0], ys[0], p, ValueOf(xs[1..], b), ValueOf(ys[1..], b));
      } else if ys[0] < xs[0] {
        LeadDecides(ys[0], xs[0], p, ValueOf(ys[1..], b), ValueOf(xs[1..], b));
      }
    }
  }

  // ---------------------------------------------------------------- Crockford base 32

  const CROCKFORD: string := "0123456789ABCDEFGHJKMNPQRSTVWXYZ"

  const HEX: string := "0123456789abcdef"

  /** An alphabet whose characters ascend, so that no character repeats. */
  ghost predicate Ascending(alphabet: string) {
    var n := |alphabet|;
    n < 2 || (alphabet[n - 2] < alphabet[n - 1] && Ascending(alphabet[..n - 1]))
  }

  /** In such an alphabet characters compare as their positions do. */
  lemma AscendingAt(alphabet: string, i: nat, j: nat)
    requires Ascending(alphabet) && i < |alphabet| && j < |alphabet|
    ensures alphabet[i] < alphabet[j] <==> i < j
    ensures alphabet[i] == alphabet[j] <==> i == j
  {
    if i < j {
      EarlierIsLess(alphabet, i, j);
    } else if j < i {
      EarlierIsLess(alphabet, j, i);
    }
  }

  lemma {:induction false} EarlierIsLess(alphabet: string, i: nat, j: nat)
    requires Ascending(alphabet) && i < j < |alphabet|
    ensures alphabet[i] < alphabet[j]
  {
    var n := |alphabet|;
    if j < n - 1 {
      EarlierIsLess(alphabet[..n - 1], i, j);
    } else if i < n - 2 {
      EarlierIsLess(alphabet[..n - 1], i, n - 2);
    }
  }

  lemma {:induction false} StepsAscend(a: string)
    requires forall i, j :: 0 <= i && j == i + 1 < |a| ==> a[i] < a[j]
    ensures Ascending(a)
  {
    if |a| >= 2 {
      StepsAscend(a[..|a| - 1]);
    }
  }

  lemma CrockfordAscends()
    ensures |CROCKFORD| == 32 && Ascending(CROCKFORD)
  {
    StepsAscend(CROCKFORD);
  }

  /** Hexadecimal digits: decimal ones first, then the small letters from a. */
  lemma HexIs(d: nat)
    requires d < 16
    ensures HEX[d] == if d < 10 then '0' + d as char else 'a' + (d - 10) as char
  {
  }

  /** Crockford's alphabet: decimal digits first, then capital letters. */
  lemma CrockfordIs(d: nat)
    requires d < 32
    ensures if d < 10 then CROCKFORD[d] == '0' + d as char else 'A' <= CROCKFORD[d] <= 'Z'
  {
  }

  /** It leaves out I, L, O and U. */
  lemma CrockfordOmits(d: nat)
    requires d < 32
    ensures CROCKFORD[d] != 'I' && CROCKFORD[d] != 'L' && CROCKFORD[d] != 'O' && CROCKFORD[d] != 'U'
  {
  }

  lemma HexAscends()
    ensures |HEX| == 16 && Ascending(HEX)
  {
    StepsAscend(HEX);
  }

  /** The characters of a numeral. */
  function Write(ds: seq<nat>, alphabet: string): (s: string)
    requires AllBelow(ds, |alphabet|)
    ensures |s| == |ds|
    ensures forall i :: 0 <= i < |ds| ==> s[i] == alphabet[ds[i]]
  {
    seq(|ds|, i requires 0 <= i < |ds| => alphabet[ds[i]])
  }

  lemma WriteInjective(xs: seq<nat>, ys: seq<nat>, alphabet: string)
    requires AllBelow(xs, |alphabet|) && AllBelow(ys, |alphabet|) && Ascending(alphabet)
    ensures Write(xs, alphabet) == Write(ys, alphabet) <==> xs == ys
  {
    if Write(xs, alphabet) == Write(ys, alphabet) {
      forall i | 0 <= i < |xs|
        ensures xs[i] == ys[i]
      {
        assert Write(xs, alphabet)[i] == Write(ys, alphabet)[i];
        AscendingAt(alphabet, xs[i], ys[i]);
      }
    }
  }

  /** Python's `<` on strings of equal length. */
  predicate StringLess(s: string, t: string)
    requires |s| == |t|
  {
    s != [] && (s[0] < t[0] || (s[0] == t[0] && StringLess(s[1..], t[1..])))
  }

  lemma {:induction false} WriteKeepsOrder(xs: seq<nat>, ys: seq<nat>, alphabet: string)
    requires |xs| == |ys| && AllBelow(xs, |alphabet|) && AllBelow(ys, |alphabet|) && Ascending(alphabet)
    ensures StringLess(Write(xs, alphabet), Write(ys, alphabet)) <==> Precedes(xs, ys)
  {
    if xs != [] {
      WriteKeepsOrder(xs[1..], ys[1..], alphabet);
      AscendingAt(alphabet, xs[0], ys[0]);
      assert Write(xs, alphabet)[1..] == Write(xs[1..], alphabet);
      assert Write(ys, alphabet)[1..] == Write(ys[1..], alphabet);
    }
  }

  lemma LastDigit(v: int, i: nat, ds: seq<nat>)
    requires 0 < i <= |ds| && Digits(v, i, 32) == ds[..i]
    ensures ds[i - 1] == v % 32 && ds[..i - 1] == Digits(v / 32, i - 1, 32)
  {
    assert ds[..i][i - 1] == ds[i - 1] && ds[..i][..i - 1] == ds[..i - 1];
    var front := Digits(v / 32, i - 1, 32);
    assert (front + [v % 32])[..i - 1] == front;
  }

  /** `_encode_crockford`: fills a list of `length` characters from the right. */
  method EncodeCrockford(value: int, length: nat) returns (s: string)
    ensures s == Write(Digits(value, length, 32), CROCKFORD)
  {
    var chars := new char[length];
    var v, i := value, length;
    ghost var ds := Digits(value, length, 32);
    while i > 0
      invariant 0 <= i <= length && chars.Length == length
      invariant Digits(v, i, 32) == ds[..i]
      invariant forall j :: i <= j < length ==> chars[j] == CROCKFORD[ds[j]]
    {
      LastDigit(v, i, ds);
      i := i - 1;
      chars[i] := CROCKFORD[v % 32];
      v := v / 32;
    }
    s := chars[..];
  }

  /** Encodings of a fixed length compare as strings exactly as the encoded values do. */
  lemma EncodingsSort(v: nat, w: nat, n: nat)
    requires v < Pow(32, n) && w < Pow(32, n)
    ensures StringLess(Write(Digits(v, n, 32), CROCKFORD), Write(Digits(w, n, 32), CROCKFORD)) <==> v < w
  {
    CrockfordAscends();
    var xs, ys := Digits(v, n, 32), Digits(w, n, 32);
    WriteKeepsOrder(xs, ys, CROCKFORD);
    OrderIsValue(xs, ys, 32);
    DecodeEncode(v, n, 32);
    DecodeEncode(w, n, 32);
    Remainder(v, Pow(32, n), 0, v);
    Remainder(w, Pow(32, n), 0, w);
  }

  // ---------------------------------------------------------------- decoding to hexadecimal

  function Upper(c: char): char {
    if 'a' <= c <= 'z' then (c as int - 32) as char else c
  }

  /** `str.index`; `None` is the `ValueError`. */
  function IndexOf(alphabet: string, c: char): (i: Option<nat>)
    ensures i.Some? ==> i.value < |alphabet| && alphabet[i.value] == c
    ensures i.None? ==> c !in alphabet
  {
    if alphabet == [] then None
    else if alphabet[|alphabet| - 1] == c then Some(|alphabet| - 1)
    else IndexOf(alphabet[..|alphabet| - 1], c)
  }

  /** A small letter reads as its capital. */
  lemma SmallReadsAsCapital(c: char)
    requires 'A' <= c <= 'Z'
    ensures Upper(c) == c && Upper((c as int + 32) as char) == c
  {
  }

  function Reader(alphabet: string): char -> Option<nat> {
    (c: char) => IndexOf(alphabet, Upper(c))
  }

  /** The number that the first `n` characters of `s` write in base `b`, with `f` reading the digits. */
  function DecodeTo(f: char -> Option<nat>, s: string, b: nat, n: nat): Option<nat>
    requires n <= |s|
  {
    if n == 0 then Some(0)
    else
      match (DecodeTo(f, s, b, n - 1), f(s[n - 1]))
      case (Some(v), Some(d)) => Some(v * b + d)
      case _ => None
  }

  function DecodeWith(f: char -> Option<nat>, s: string, b: nat): Option<nat> {
    DecodeTo(f, s, b, |s|)
  }

  /** Crockford base 32, in either case. */
  function Decode(s: string): Option<nat> {
    DecodeWith(Reader(CROCKFORD), s, 32)
  }

  /** The loop of `_to_hex`. */
  method DecodeLoop(f: char -> Option<nat>, s: string, b: nat) returns (r: Option<nat>)
    ensures r == DecodeWith(f, s, b)
  {
    var value := 0;
    for i := 0 to |s|
      invariant DecodeTo(f, s, b, i) == Some(value)
    {
      var d := f(s[i]);
      if d.None? {
        DecodeStaysNone(f, s, b, i + 1);
        return None;
      }
      value := value * b + d.value;
    }
    r := Some(value);
  }

  lemma {:induction false} DecodeStaysNone(f: char -> Option<nat>, s: string, b: nat, n: nat)
    requires n <= |s| && DecodeTo(f, s, b, n) == None
    ensures DecodeWith(f, s, b) == None
    decreases |s| - n
  {
    if n < |s| {
      DecodeStaysNone(f, s, b, n + 1);
    }
  }

  /** When every character reads as the digit at its place, the string decodes to the numeral's value. */
  lemma {:induction false} DecodeDigits(f: char -> Option<nat>, s: string, ds: seq<nat>, n: nat)
    requires |s| == |ds| && n <= |s| && forall i :: 0 <= i < |s| ==> f(s[i]) == Some(ds[i])
    ensures DecodeTo(f, s, 32, n) == Some(ValueOf(ds[..n], 32))
  {
    if n > 0 {
      DecodeDigits(f, s, ds, n - 1);
      assert ds[..n] == ds[..n - 1] + [ds[n - 1]];
      ValueAppend(ds[..n - 1], ds[n - 1], 32);
    }
  }

  /** No character of the alphabet is a small letter. */
  ghost predicate Capital(alphabet: string) {
    alphabet == [] ||
    var n := |alphabet| - 1;
    Upper(alphabet[n]) == alphabet[n] && Capital(alphabet[..n])
  }

  lemma {:induction false} CapitalAt(alphabet: string, i: nat)
    requires Capital(alphabet) && i < |alphabet|
    ensures Upper(alphabet[i]) == alphabet[i]
  {
    if i < |alphabet| - 1 {
      CapitalAt(alphabet[..|alphabet| - 1], i);
    }
  }

  lemma {:induction false} IndexInAscending(alphabet: string, d: nat)
    requires d < |alphabet| && Ascending(alphabet)
    ensures IndexOf(alphabet, alphabet[d]) == Some(d)
  {
    var i := IndexOf(alphabet, alphabet[d]);
    assert alphabet[d] in alphabet;
    AscendingAt(alphabet, i.value, d);
  }

  lemma WrittenReads(ds: seq<nat>, alphabet: string, i: nat)
    requires AllBelow(ds, |alphabet|) && Ascending(alphabet) && Capital(alphabet) && i < |ds|
    ensures Reader(alphabet)(Write(ds, alphabet)[i]) == Some(ds[i])
  {
    IndexInAscending(alphabet, ds[i]);
    CapitalAt(alphabet, ds[i]);
  }

  /** Decoding a written numeral gives its value. */
  lemma DecodeWritten(ds: seq<nat>, alphabet: string)
    requires AllBelow(ds, |alphabet|) && |alphabet| == 32 && Ascending(alphabet) && Capital(alphabet)
    ensures DecodeWith(Reader(alphabet), Write(ds, alphabet), 32) == Some(ValueOf(ds, 32))
  {
    forall i | 0 <= i < |ds|
      ensures Reader(alphabet)(Write(ds, alphabet)[i]) == Some(ds[i])
    {
      WrittenReads(ds, alphabet, i);
    }
    DecodeDigits(Reader(alphabet), Write(ds, alphabet), ds, |ds|);
    assert ds[..|ds|] == ds;
  }

  /** `format(v, "x")` as a numeral: no leading zeros, except for zero itself. */
  function HexDigits(v: nat): (ds: seq<nat>)
    ensures |ds| > 0 && AllBelow(ds, 16)
  {
    if v < 16 then [v] else HexDigits(v / 16) + [v % 16]
  }

  function Zeros(n: nat): (ds: seq<nat>)
    ensures |ds| == n && forall i :: 0 <= i < n ==> ds[i] == 0
  {
    if n == 0 then [] else Zeros(n - 1) + [0]
  }

  /** `zfill(n)`. */
  function Pad(ds: seq<nat>, n: nat): seq<nat> {
    if |ds| >= n then ds else Zeros(n - |ds|) + ds
  }

  lemma {:induction false} ZeroDigits(n: nat, b: nat)
    requires b >= 2
    ensures Digits(0, n, b) == Zeros(n)
  {
    if n > 0 {
      ZeroDigits(n - 1, b);
    }
  }

  /** A number fits into `n` hexadecimal digits exactly when it is below 16 to the `n`. */
  lemma {:induction false} HexLength(v: nat, n: nat)
    requires n >= 1
    ensures |HexDigits(v)| <= n <==> v < Pow(16, n)
    decreases n
  {
    assert Pow(16, n) == 16 * Pow(16, n - 1);
    if v >= 16 {
      if n == 1 {
        assert Pow(16, 0) == 1;
      } else {
        HexLength(v / 16, n - 1);
      }
    }
  }

  lemma PadAppend(front: seq<nat>, d: nat, n: nat)
    requires n >= 1
    ensures Pad(front + [d], n) == Pad(front, n - 1) + [d]
  {
    if |front| + 1 < n {
      Regroup(Zeros(n - |front| - 1), front, [d]);
    }
  }

  lemma TailAppend(p: seq<nat>, d: nat, n: nat)
    requires 1 <= n <= |p| + 1
    ensures (p + [d])[|p| + 1 - n..] == p[|p| + 1 - n..] + [d]
  {
  }

  lemma {:induction false} PadLength(ds: seq<nat>, n: nat)
    ensures |Pad(ds, n)| >= n
  {
  }

  /** The last `n` digits of a padded form. */
  function Tail(ds: seq<nat>, n: nat): seq<nat> {
    PadLength(ds, n);
    Pad(ds, n)[|Pad(ds, n)| - n..]
  }

  lemma TailStep(front: seq<nat>, d: nat, n: nat)
    requires n >= 1
    ensures Tail(front + [d], n) == Tail(front, n - 1) + [d]
  {
    PadAppend(front, d, n);
    PadLength(front, n - 1);
    TailAppend(Pad(front, n - 1), d, n);
  }

  lemma TailOfOne(v: nat, n: nat)
    requires v < 16 && n >= 1
    ensures Tail([v], n) == Zeros(n - 1) + [v]
  {
    TailStep([], v, n);
    assert [] + [v] == [v];
    assert Tail([], n - 1) == Zeros(n - 1);
  }

  /** The last `n` digits of the padded form are the last `n` digits of the number. */
  lemma {:induction false} PaddedTail(v: nat, n: nat)
    ensures Tail(HexDigits(v), n) == Digits(v, n, 16)
    decreases n
  {
    if n > 0 {
      if v < 16 {
        OneDigitTail(v, n);
      } else {
        PaddedTail(v / 16, n - 1);
        TailStep(HexDigits(v / 16), v % 16, n);
      }
    }
  }

  lemma OneDigitTail(v: nat, n: nat)
    requires v < 16 && n >= 1
    ensures Tail(HexDigits(v), n) == Digits(v, n, 16)
  {
    TailOfOne(v, n);
    ZeroDigits(n - 1, 16);
    assert v / 16 == 0 && v % 16 == v;
  }

  // ---------------------------------------------------------------- ids in the payload (lines 163-167 of the exporter)

  function Hex(ds: seq<nat>): string
    requires AllBelow(ds, 16)
  {
    Write(ds, HEX)
  }

  lemma PadBelow(ds: seq<nat>, n: nat)
    requires AllBelow(ds, 16)
    ensures AllBelow(Pad(ds, n), 16) && AllBelow(Tail(ds, n), 16)
  {
  }

  /** `_to_hex(id).zfill(32)`, for the number that the id writes. */
  function TraceHex(v: nat): string {
    PadBelow(HexDigits(v), 32);
    Hex(Pad(HexDigits(v), 32))
  }

  /** `_to_hex(id).zfill(16)[-16:]`. */
  function SpanHex(v: nat): string {
    PadBelow(HexDigits(v), 16);
    Hex(Tail(HexDigits(v), 16))
  }

  /** Two numbers written side by side in fixed widths. */
  function WriteBoth(v: nat, m: nat, w: nat, n: nat, alphabet: string): (s: string)
    requires |alphabet| == 32
    ensures |s| == m + n
  {
    Write(Digits(v, m, 32), alphabet) + Write(Digits(w, n, 32), alphabet)
  }

  /** `_new_ulid`, with the clock reading and the random draw as inputs. */
  function NewUlid(timestamp: nat, random: nat): string {
    WriteBoth(timestamp, 10, random, 16, CROCKFORD)
  }

  /** The number that an id stands for: the timestamp above 80 random bits. */
  function IdValue(timestamp: nat, random: nat): nat {
    timestamp * BITS80 + random
  }

  lemma WriteConcat(xs: seq<nat>, ys: seq<nat>, alphabet: string)
    requires AllBelow(xs, |alphabet|) && AllBelow(ys, |alphabet|)
    ensures Write(xs + ys, alphabet) == Write(xs, alphabet) + Write(ys, alphabet)
  {
  }

  /** An ascending alphabet that ends before the small letters holds none of them. */
  lemma {:induction false} CapitalIfBelow(alphabet: string)
    requires Ascending(alphabet) && (alphabet == [] || alphabet[|alphabet| - 1] < 'a')
    ensures Capital(alphabet)
  {
    if alphabet != [] {
      CapitalIfBelow(alphabet[..|alphabet| - 1]);
    }
  }

  lemma CrockfordReady()
    ensures |CROCKFORD| == 32 && Ascending(CROCKFORD) && Capital(CROCKFORD)
  {
    CrockfordAscends();
    CapitalIfBelow(CROCKFORD);
  }

  /** A value that fits is what its digits stand for. */
  lemma FittingValue(v: nat, n: nat, b: nat)
    requires b >= 2 && v < Pow(b, n)
    ensures ValueOf(Digits(v, n, b), b) == v
  {
    DecodeEncode(v, n, b);
    Remainder(v, Pow(b, n), 0, v);
  }

  lemma JoinedValues(v: nat, m: nat, w: nat, n: nat, b: nat)
    requires b >= 2 && v < Pow(b, m) && w < Pow(b, n)
    ensures ValueOf(Digits(v, m, b) + Digits(w, n, b), b) == v * Pow(b, n) + w
  {
    FittingValue(v, m, b);
    FittingValue(w, n, b);
    ValueConcat(Digits(v, m, b), Digits(w, n, b), b);
  }

  /** Numerals of `m` and `n` digits in base 32 hold the timestamps and the random bits of ids. */
  ghost predicate Widths(m: nat, n: nat) {
    Pow(32, m) == 4 * BITS48 && Pow(32, n) == BITS80
  }

  lemma UlidWidths()
    ensures Widths(10, 16)
  {
    PowersOf32();
  }

  lemma JoinedInWidths(v: nat, m: nat, w: nat, n: nat)
    requires Widths(m, n) && v < 4 * BITS48 && w < BITS80
    ensures ValueOf(Digits(v, m, 32) + Digits(w, n, 32), 32) == IdValue(v, w)
  {
    JoinedValues(v, m, w, n, 32);
  }

  /** A number decodes to what its two parts stand for together. */
  lemma BothDecode(v: nat, m: nat, w: nat, n: nat, alphabet: string)
    requires |alphabet| == 32 && Ascending(alphabet) && Capital(alphabet)
    ensures DecodeWith(Reader(alphabet), WriteBoth(v, m, w, n, alphabet), 32)
         == Some(ValueOf(Digits(v, m, 32) + Digits(w, n, 32), 32))
  {
    WriteConcat(Digits(v, m, 32), Digits(w, n, 32), alphabet);
    DecodeWritten(Digits(v, m, 32) + Digits(w, n, 32), alphabet);
  }

  /** Decoding a generated id gives the timestamp and the random bits back. */
  lemma UlidDecodes(timestamp: nat, random: nat)
    requires timestamp < 4 * BITS48 && random < BITS80
    ensures Decode(NewUlid(timestamp, random)) == Some(IdValue(timestamp, random))
    ensures |NewUlid(timestamp, random)| == 26
  {
    CrockfordReady();
    UlidWidths();
    JoinedInWidths(timestamp, 10, random, 16);
    BothDecode(timestamp, 10, random, 16, CROCKFORD);
  }

  /** The trace id in the payload has exactly 32 digits exactly when the timestamp is below 2 to the 48 ms. */
  lemma TraceIdLength(timestamp: nat, random: nat)
    requires random < BITS80
    ensures |TraceHex(IdValue(timestamp, random))| == 32 <==> timestamp < BITS48
  {
    PowerSizes();
    var v := IdValue(timestamp, random);
    HexLength(v, 32);
    var p := BITS80;
    if timestamp < BITS48 {
      LeadDecides(timestamp, BITS48, p, random, 0);
    } else {
      MulMono(BITS48, timestamp, p);
    }
  }

  lemma HexInjective(xs: seq<nat>, ys: seq<nat>)
    requires AllBelow(xs, 16) && AllBelow(ys, 16)
    ensures Hex(xs) == Hex(ys) <==> xs == ys
  {
    HexAscends();
    WriteInjective(xs, ys, HEX);
  }

  /** Such trace ids are equal exactly when timestamp and random bits are. */
  lemma TraceIdInjective(t1: nat, r1: nat, t2: nat, r2: nat)
    requires t1 < BITS48 && t2 < BITS48 && r1 < BITS80 && r2 < BITS80
    ensures TraceHex(IdValue(t1, r1)) == TraceHex(IdValue(t2, r2)) <==> t1 == t2 && r1 == r2
  {
    var v, w, p := IdValue(t1, r1), IdValue(t2, r2), BITS80;
    TraceDigits(t1, r1);
    TraceDigits(t2, r2);
    PadBelow(HexDigits(v), 32);
    PadBelow(HexDigits(w), 32);
    HexInjective(Pad(HexDigits(v), 32), Pad(HexDigits(w), 32));
    DigitsInjective(v, w, 32, 16);
    Remainder(v, Pow(16, 32), 0, v);
    Remainder(w, Pow(16, 32), 0, w);
    Remainder(v, p, t1, r1);
    Remainder(w, p, t2, r2);
  }

  lemma TraceDigits(timestamp: nat, random: nat)
    requires timestamp < BITS48 && random < BITS80
    ensures Pad(HexDigits(IdValue(timestamp, random)), 32) == Digits(IdValue(timestamp, random), 32, 16)
    ensures IdValue(timestamp, random) < Pow(16, 32)
  {
    PowerSizes();
    var v := IdValue(timestamp, random);
    LeadDecides(timestamp, BITS48, BITS80, random, 0);
    HexLength(v, 32);
    PaddedTail(v, 32);
    assert Tail(HexDigits(v), 32) == Pad(HexDigits(v), 32);
  }

  /** The trace id in the payload is the id's number in 32 hexadecimal digits. */
  lemma TraceIdIs(timestamp: nat, random: nat)
    requires timestamp < BITS48 && random < BITS80
    ensures TraceHex(IdValue(timestamp, random)) == Hex(Digits(IdValue(timestamp, random), 32, 16))
    ensures ValueOf(Digits(IdValue(timestamp, random), 32, 16), 16) == IdValue(timestamp, random)
  {
    TraceDigits(timestamp, random);
    FittingValue(IdValue(timestamp, random), 32, 16);
  }

  /** The span id in the payload is the low 64 random bits, whatever the timestamp. */
  lemma SpanIdIsLowBits(timestamp: nat, random: nat)
    requires random < BITS80
    ensures SpanHex(IdValue(timestamp, random)) == Hex(Digits(random % BITS64, 16, 16))
  {
    PowerSizes();
    var v, m := IdValue(timestamp, random), BITS64;
    PaddedTail(v, 16);
    var q, low := random / m, random % m;
    Regroup3(timestamp, 0x1_0000, m);
    Distribute(timestamp * 0x1_0000, q, m);
    Remainder(v, m, timestamp * 0x1_0000 + q, low);
    Remainder(low, m, 0, low);
    DigitsInjective(v, low, 16, 16);
  }

  /** A parent pointer in the payload names a span exactly when the two ids agree in the low 64 random bits;
      so links survive export whenever those bits are distinct. */
  lemma LinksMatchLowBits(t1: nat, r1: nat, t2: nat, r2: nat)
    requires r1 < BITS80 && r2 < BITS80
    ensures SpanHex(IdValue(t1, r1)) == SpanHex(IdValue(t2, r2)) <==> r1 % BITS64 == r2 % BITS64
  {
    SpanIdIsLowBits(t1, r1);
    SpanIdIsLowBits(t2, r2);
    PowerSizes();
    var a, b := r1 % BITS64, r2 % BITS64;
    HexInjective(Digits(a, 16, 16), Digits(b, 16, 16));
    DigitsInjective(a, b, 16, 16);
    Remainder(a, BITS64, 0, a);
    Remainder(b, BITS64, 0, b);
  }
}

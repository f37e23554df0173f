/** UnpackedFields: packed varints read out of an unknown field, one character per bit. */
module UnpackedFields {
  import opened Wire
  import opened Schema
  import opened Numeric

  // ------------------------------------------------------------------ bit strings

  predicate IsBits(t: string) { forall i :: 0 <= i < |t| ==> t[i] == '0' || t[i] == '1' }

  function BitOf(c: char): nat { if c == '1' then 1 else 0 }

  /** Least significant bit first. */
  function BitsValue(t: string): nat {
    if t == "" then 0 else BitOf(t[0]) + 2 * BitsValue(t[1..])
  }

  function Pow2(k: nat): (p: nat)
    ensures p > 0
  {
    if k == 0 then 1 else 2 * Pow2(k - 1)
  }

  /** The low `bits` bits of a number. */
  function Low(v: nat, bits: nat): nat { v % Pow2(bits) }

  lemma Twice(a: nat, b: nat)
    ensures 2 * (a * b) == (2 * a) * b
  {
  }

  lemma {:induction false} Pow2Sum(a: nat, b: nat)
    ensures Pow2(a + b) == Pow2(a) * Pow2(b)
  {
    if a > 0 {
      Pow2Sum(a - 1, b);
      Twice(Pow2(a - 1), Pow2(b));
    }
  }

  lemma {:induction false} Pow2OfSevens(k: nat)
    ensures Pow2(7 * k) == Pow128(k)
  {
    if k > 0 {
      Pow2OfSevens(k - 1);
      assert Pow2(7) == 128;
      Pow2Sum(7, 7 * (k - 1));
    }
  }

  lemma {:induction false} BitsAppend(a: string, b: string)
    ensures BitsValue(a + b) == BitsValue(a) + Pow2(|a|) * BitsValue(b)
  {
    if a == "" {
      assert a + b == b;
    } else {
      BitsAppend(a[1..], b);
      assert (a + b)[1..] == a[1..] + b;
      Twice(Pow2(|a| - 1), BitsValue(b));
    }
  }

  lemma {:induction false} BitsBound(t: string)
    ensures BitsValue(t) < Pow2(|t|)
  {
    if t != "" { BitsBound(t[1..]); }
  }

  lemma ProductGap(m: nat, a: nat, b: nat)
    requires a < b
    ensures m * a + m <= m * b
  {
    assert m * b == m * (a + 1) + m * (b - a - 1);
  }

  lemma RemainderIs(x: nat, q: nat, r: nat, m: nat)
    requires r < m && x == r + m * q
    ensures x % m == r
  {
    var d, e := x / m, x % m;
    assert x == m * d + e;
    if d > q { ProductGap(m, q, d); }
    if d < q { ProductGap(m, d, q); }
  }

  /** Cutting a bit string off is taking the value modulo a power of two. */
  lemma Truncated(t: string, n: nat)
    ensures BitsValue(if |t| > n then t[..n] else t) == Low(BitsValue(t), n)
  {
    BitsBound(t);
    if |t| > n {
      assert t == t[..n] + t[n..];
      BitsAppend(t[..n], t[n..]);
      BitsBound(t[..n]);
      RemainderIs(BitsValue(t), BitsValue(t[n..]), BitsValue(t[..n]), Pow2(n));
    } else {
      Pow2Sum(|t|, n - |t|);
      Pow2Grows(|t|, n);
      RemainderIs(BitsValue(t), 0, BitsValue(t), Pow2(n));
    }
  }

  lemma {:induction false} Pow2Grows(a: nat, b: nat)
    requires a <= b
    ensures Pow2(a) <= Pow2(b)
  {
    if a < b { Pow2Grows(a, b - 1); }
  }

  lemma LastBit(t: string)
    requires t != ""
    ensures BitsValue(t) == BitsValue(t[..|t| - 1]) + Pow2(|t| - 1) * BitOf(t[|t| - 1])
  {
    var last := t[|t| - 1];
    assert t == t[..|t| - 1] + [last];
    assert [last][1..] == "" && BitsValue([last]) == BitOf(last);
    hide BitsValue, Pow2, BitOf;
    BitsAppend(t[..|t| - 1], [last]);
  }

  // ---------------------------------------------------------------- the meaning

  /** The length of the first varint of a payload; the last one may be cut short. */
  function FirstVarint(s: bytes): (n: nat)
    ensures n <= |s| && (s != [] ==> n > 0)
  {
    if s == [] then 0 else if s[0] < 128 then 1 else 1 + FirstVarint(s[1..])
  }

  /** The base-128 values of a payload's varints, modulo 2^bits. */
  function Decoded(s: bytes, bits: nat): seq<nat> {
    if s == [] then []
    else [Low(VarintValue(s[..FirstVarint(s)]), bits)] + Decoded(s[FirstVarint(s)..], bits)
  }

  lemma {:induction false} VarintValueAppend(a: bytes, b: byte)
    ensures VarintValue(a + [b]) == VarintValue(a) + Pow128(|a|) * (b % 128)
  {
    if a == [] {
      assert (a + [b])[1..] == [];
    } else {
      VarintValueAppend(a[1..], b);
      assert (a + [b])[1..] == a[1..] + [b];
      assert 128 * (Pow128(|a| - 1) * (b % 128)) == (128 * Pow128(|a| - 1)) * (b % 128);
    }
  }

  /** The first varint ends at the first byte below 128, or with the payload. */
  lemma {:induction false} FirstVarintEnds(s: bytes, n: nat)
    requires 0 < n <= |s| && (forall j :: 0 <= j < n - 1 ==> s[j] >= 128) && (s[n - 1] < 128 || n == |s|)
    ensures FirstVarint(s) == n
  {
    if n > 1 {
      FirstVarintEnds(s[1..], n - 1);
    } else if s[0] >= 128 {
      assert s[1..] == [];
    }
  }

  // ------------------------------------------------------------------- the code

  /** Pushing the lowest bit of what is left of a byte. */
  lemma BitIsPushed(t: string, rest: nat)
    ensures var u := t + [if rest % 2 == 1 then '1' else '0'];
            BitsValue(u) + Pow2(|u|) * (rest / 2) == BitsValue(t) + Pow2(|t|) * rest
  {
    var u := t + [if rest % 2 == 1 then '1' else '0'];
    LastBit(u);
    assert u[..|u| - 1] == t;
    assert Pow2(|u|) == 2 * Pow2(|t|);
    hide BitsValue, Pow2;
    assert Pow2(|t|) * rest == Pow2(|t|) * (rest % 2) + (2 * Pow2(|t|)) * (rest / 2) by {
      assert rest == rest % 2 + 2 * (rest / 2);
    }
  }

  method EightBits(ele: byte) returns (tempbin: string)
    ensures |tempbin| == 8 && IsBits(tempbin) && BitsValue(tempbin) == ele
  {
    tempbin := "";
    var rest: nat := ele;
    assert Pow2(0) == 1;
    hide BitsValue, Pow2;
    for i := 0 to 8
      invariant |tempbin| == i && IsBits(tempbin) && BitsValue(tempbin) + Pow2(i) * rest == ele
      invariant i == 8 || rest < [256, 128, 64, 32, 16, 8, 4, 2][i]
      invariant i == 8 ==> rest == 0
    {
      BitIsPushed(tempbin, rest);
      tempbin := tempbin + [if rest % 2 == 1 then '1' else '0'];
      rest := rest / 2;
    }
  }

  /** The bits of one byte: seven of a byte with more to follow, at least one of a last byte. */
  method ByteBits(ele: byte) returns (tempbin: string)
    ensures IsBits(tempbin) && BitsValue(tempbin) == ele % 128
    ensures ele >= 128 ==> |tempbin| == 7
  {
    tempbin := EightBits(ele);
    SevenBits(tempbin);
    hide BitsValue;
    if tempbin[|tempbin| - 1] == '1' {
      tempbin := tempbin[..|tempbin| - 1];
    } else {
      while tempbin[|tempbin| - 1] == '0' && |tempbin| > 1
        invariant tempbin != "" && IsBits(tempbin) && BitsValue(tempbin) == ele % 128
        decreases |tempbin|
      {
        LastBit(tempbin);
        tempbin := tempbin[..|tempbin| - 1];
      }
    }
  }

  lemma SevenBits(t: string)
    requires |t| == 8 && IsBits(t)
    ensures BitsValue(t[..7]) == BitsValue(t) % 128
    ensures t[7] == '1' <==> BitsValue(t) >= 128
  {
    LastBit(t);
    BitsBound(t[..7]);
    assert Pow2(7) == 128;
    hide BitsValue, Pow2;
    RemainderIs(BitsValue(t), BitOf(t[7]), BitsValue(t[..7]), 128);
  }

  lemma BitsOfNextByte(bin: string, tempbin: string, value: bytes, start: nat, i: nat)
    requires start <= i < |value| && |bin| == 7 * (i - start) && BitsValue(bin) == VarintValue(value[start..i])
    requires BitsValue(tempbin) == value[i] % 128
    ensures BitsValue(bin + tempbin) == VarintValue(value[start..i + 1])
  {
    hide BitsValue, VarintValue, Pow2, Pow128;
    BitsAppend(bin, tempbin);
    Pow2OfSevens(i - start);
    assert value[start..i + 1] == value[start..i] + [value[i]];
    VarintValueAppend(value[start..i], value[i]);
  }

  /** The bits of the varint that begins at `start`, and where the next one begins. */
  method VarintBits(value: bytes, start: nat) returns (bin: string, next: nat)
    requires start < |value|
    ensures next == start + FirstVarint(value[start..])
    ensures BitsValue(bin) == VarintValue(value[start..next])
  {
    assert VarintValue([]) == 0 && BitsValue("") == 0;
    hide Pow2, Pow128, VarintValue, BitsValue, FirstVarint;
    bin := "";
    var i := start;
    assert value[start..start] == [];
    while i < |value|
      invariant start <= i <= |value|
      invariant |bin| == 7 * (i - start) && BitsValue(bin) == VarintValue(value[start..i])
      invariant forall j :: start <= j < i ==> value[j] >= 128
    {
      var ele := value[i];
      var tempbin := ByteBits(ele);
      BitsOfNextByte(bin, tempbin, value, start, i);
      bin := bin + tempbin;
      if ele < 128 {
        FirstVarintEnds(value[start..], i + 1 - start);
        return bin, i + 1;
      }
      i := i + 1;
    }
    FirstVarintEnds(value[start..], |value| - start);
    next := |value|;
  }

  /** CopyVarintBitValueField for a repeated field: first the bit strings, then the numbers.
      For every payload the result is the value of each varint modulo 2^bits. */
  method CopyVarintBitValueField(bits: nat, value: bytes) returns (arr: seq<nat>)
    ensures arr == Decoded(value, bits)
  {
    var binarr := BitStrings(bits, value);
    arr := [];
    for k := 0 to |binarr|
      invariant |arr| == k && forall j :: 0 <= j < k ==> arr[j] == Decoded(value, bits)[j]
    {
      var val := SumOfPowers(binarr[k]);
      arr := arr + [val];
    }
  }

  method BitStrings(bits: nat, value: bytes) returns (binarr: seq<string>)
    ensures |binarr| == |Decoded(value, bits)|
    ensures forall j :: 0 <= j < |binarr| ==> |binarr[j]| <= bits && BitsValue(binarr[j]) == Decoded(value, bits)[j]
  {
    hide BitsValue, VarintValue, Low, Pow2, Decoded, FirstVarint;
    binarr := [];
    var i := 0;
    ghost var numbers: seq<nat> := [];
    assert value[0..] == value;
    NothingDecoded(bits);
    while i < |value|
      invariant 0 <= i <= |value|
      invariant numbers + Decoded(value[i..], bits) == Decoded(value, bits)
      invariant |binarr| == |numbers|
      invariant forall j :: 0 <= j < |binarr| ==> |binarr[j]| <= bits && BitsValue(binarr[j]) == numbers[j]
    {
      var bin, next := VarintBits(value, i);
      Truncated(bin, bits);
      DecodedStep(value, i, bits);
      if |bin| > bits { bin := bin[..bits]; }
      binarr := binarr + [bin];
      numbers := numbers + [BitsValue(bin)];
      i := next;
    }
    assert value[i..] == [];
  }

  lemma NothingDecoded(bits: nat)
    ensures Decoded([], bits) == []
  {
  }

  lemma DecodedStep(value: bytes, i: nat, bits: nat)
    requires i < |value|
    ensures var next := i + FirstVarint(value[i..]);
            Decoded(value[i..], bits) == [Low(VarintValue(value[i..next]), bits)] + Decoded(value[next..], bits)
  {
    hide Low, VarintValue, FirstVarint;
    var next, tail := i + FirstVarint(value[i..]), value[i..];
    assert value[i..next] == tail[..FirstVarint(tail)] && value[next..] == tail[FirstVarint(tail)..];
  }

  /** The accumulation in the element type: the sum stays below 2^bits, so it never wraps. */
  method SumOfPowers(t: string) returns (val: nat)
    ensures val == BitsValue(t) < Pow2(|t|)
  {
    val := 0;
    for i := 0 to |t|
      invariant val == BitsValue(t[..i])
    {
      assert t[..i + 1][..i] == t[..i];
      LastBit(t[..i + 1]);
      val := val + BitOf(t[i]) * Pow2(i);
    }
    assert t[..|t|] == t;
    BitsBound(t);
  }

  // ------------------------------------------------- against the regular decoder

  /** A payload of complete varints of at most ten bytes. */
  predicate IsVarints(s: bytes) {
    s != [] ==>
      var n := FirstVarint(s);
      n <= MAX_VARINT_BYTES && s[n - 1] < 128 && IsVarints(s[n..])
  }

  /** Integer kinds for which both decoders read the same bits. */
  predicate IsPlainInteger(k: Kind) { k in {Int32Value, UInt32Value, Int64Value, UInt64Value, EnumValue} }

  function Width(k: Kind): nat { if k.Int64Value? || k.UInt64Value? || k.SInt64Value? then 64 else 32 }

  lemma Pow2Words()
    ensures Pow2(8) == 256 && Pow2(32) == TWO_32 && Pow2(64) == TWO_64
  {
    assert Pow2(4) == 16;
    hide Pow2;
    Pow2Sum(4, 4);
    Pow2Sum(8, 8);
    Pow2Sum(16, 16);
    Pow2Sum(32, 32);
  }

  lemma FirstVarintIsScanned(s: bytes)
    requires s != [] && IsVarints(s)
    ensures var n := FirstVarint(s); ScanVarint(s, MAX_VARINT_BYTES) == Scan(true, VarintValue(s[..n]), n)
  {
    var n := FirstVarint(s);
    assert n <= MAX_VARINT_BYTES && s[n - 1] < 128;
    hide FirstVarint, IsVarints, IsVarint, ScanVarint, VarintValue;
    FirstVarintIsVarint(s);
    assert s == s[..n] + s[n..];
    ScanAcceptsAVarint(s[..n], MAX_VARINT_BYTES, s[n..]);
  }

  lemma {:induction false} FirstVarintIsVarint(s: bytes)
    requires s != [] && s[FirstVarint(s) - 1] < 128
    ensures IsVarint(s[..FirstVarint(s)])
  {
    var n := FirstVarint(s);
    if n > 1 {
      FirstVarintIsVarint(s[1..]);
      var t := s[1..][..n - 1];
      forall j | 0 <= j < n - 1 ensures s[..n][j] >= 128 {
        if j > 0 { assert t[j - 1] == s[j]; }
      }
    }
  }

  /** What ReadNumber makes of the first varint of a payload: its low bits, transformed. */
  lemma FirstNumber(k: Kind, s: bytes)
    requires k.IsNumeric() && (Form(k).Varint32? || Form(k).Varint64?) && IsVarints(s) && s != []
    ensures var r, n, w := ReadNumber(k, Input(s, |s|, true)), FirstVarint(s), if Form(k).Varint64? then 64 else 32;
            && r.ok && r.rest == Input(s[n..], |s[n..]|, true)
            && Low(VarintValue(s[..n]), w) < (if Form(k).Varint64? then TWO_64 else TWO_32)
            && r.value == Transform(k, Low(VarintValue(s[..n]), w))
  {
    Pow2Words();
    FirstVarintIsScanned(s);
    hide Pow2, ScanVarint, FirstVarint, IsVarints, VarintValue, Transform;
  }

  /** The width of the words that the field's parser reads for kind `k`. */
  function WordWidth(k: Kind): nat
    requires k.IsNumeric()
  {
    if Form(k).Varint64? then 64 else 32
  }

  lemma PackedStep(k: Kind, s: bytes)
    requires k.IsNumeric() && (Form(k).Varint32? || Form(k).Varint64?) && IsVarints(s) && s != []
    ensures var n := FirstVarint(s); var v := Low(VarintValue(s[..n]), WordWidth(k));
            var r, more := ReadPacked(k, Input(s, |s|, true)), ReadPacked(k, Input(s[n..], |s[n..]|, true));
            && IsVarints(s[n..]) && |s[n..]| < |s|
            && v < (if Form(k).Varint32? || Form(k).Word32? then TWO_32 else TWO_64)
            && r.ok == more.ok && (r.ok ==> r.value == [Transform(k, v)] + more.value)
            && Decoded(s, WordWidth(k)) == [v] + Decoded(s[n..], WordWidth(k))
  {
    hide Pow2, Low, VarintValue, ReadNumber, Transform;
    FirstNumber(k, s);
  }

  /** `values` are the words of a payload as the field's parser understands them. */
  ghost predicate AreTransformed(k: Kind, words: seq<nat>, values: seq<int>)
    requires k.IsNumeric()
  {
    && |values| == |words|
    && forall i :: 0 <= i < |words| ==>
         && words[i] < (if Form(k).Varint32? || Form(k).Word32? then TWO_32 else TWO_64)
         && values[i] == Transform(k, words[i])
  }

  lemma OneMoreTransformed(k: Kind, v: nat, words: seq<nat>, values: seq<int>)
    requires k.IsNumeric() && AreTransformed(k, words, values)
    requires v < if Form(k).Varint32? || Form(k).Word32? then TWO_32 else TWO_64
    ensures AreTransformed(k, [v] + words, [Transform(k, v)] + values)
  {
    hide Transform;
  }

  /** What the field's parser makes of a payload, number by number. */
  lemma {:induction false} PackedIsTransformed(k: Kind, s: bytes)
    requires k.IsNumeric() && (Form(k).Varint32? || Form(k).Varint64?) && IsVarints(s)
    ensures var r := ReadPacked(k, Input(s, |s|, true)); r.ok && AreTransformed(k, Decoded(s, WordWidth(k)), r.value)
    decreases |s|
  {
    hide Low, VarintValue, ReadPacked, Transform, Decoded, IsVarints, AreTransformed;
    if s != [] {
      PackedStep(k, s);
      PackedIsTransformed(k, s[FirstVarint(s)..]);
      var n := FirstVarint(s);
      OneMoreTransformed(k, Low(VarintValue(s[..n]), WordWidth(k)), Decoded(s[n..], WordWidth(k)),
        ReadPacked(k, Input(s[n..], |s[n..]|, true)).value);
    } else {
      NothingPacked(k);
    }
  }

  lemma NothingPacked(k: Kind)
    requires k.IsNumeric()
    ensures ReadPacked(k, Input([], 0, true)).ok && AreTransformed(k, Decoded([], WordWidth(k)), ReadPacked(k, Input([], 0, true)).value)
  {
  }

  lemma PlainAgrees(k: Kind, word: nat)
    requires IsPlainInteger(k) && word < if Form(k).Varint64? then TWO_64 else TWO_32
    ensures Unsigned(Transform(k, word), Pow2(Width(k))) == word
  {
    Pow2Words();
    hide Pow2;
  }

  /** On one packed chunk of varints the two decoders give the same numbers, bit for bit. */
  lemma DecodersAgree(k: Kind, s: bytes)
    requires IsPlainInteger(k) && IsVarints(s)
    ensures var r := ReadPacked(k, Input(s, |s|, true));
            && r.ok && |r.value| == |Decoded(s, Width(k))|
            && forall i :: 0 <= i < |r.value| ==> Unsigned(r.value[i], Pow2(Width(k))) == Decoded(s, Width(k))[i]
  {
    hide Low, VarintValue, ReadPacked, Transform, Decoded, IsVarints, Unsigned, Pow2;
    PackedIsTransformed(k, s);
    var words := Decoded(s, WordWidth(k));
    forall i | 0 <= i < |words| ensures Unsigned(Transform(k, words[i]), Pow2(Width(k))) == words[i] {
      PlainAgrees(k, words[i]);
    }
  }

  // ------------------------------------------ where the two decoders part

  predicate IsZigZag(k: Kind) { k.SInt32Value? || k.SInt64Value? }

  lemma ZigZagDiffers(k: Kind, raw: nat)
    requires IsZigZag(k) && raw < if Form(k).Varint64? then TWO_64 else TWO_32
    ensures Unsigned(Transform(k, raw), Pow2(Width(k))) == raw <==> raw == 0
  {
    Pow2Words();
    hide Pow2;
  }

  /** sint32 and sint64 payloads go through the same decoder, which leaves ZigZag undone: each
      number it returns is the field's number exactly when it is zero. */
  lemma ZigZagIsNotUndone(k: Kind, s: bytes)
    requires IsZigZag(k) && IsVarints(s)
    ensures var r, decoded := ReadPacked(k, Input(s, |s|, true)), Decoded(s, Width(k));
            && r.ok && |r.value| == |decoded|
            && forall i :: 0 <= i < |decoded| ==>
                 (Unsigned(r.value[i], Pow2(Width(k))) == decoded[i] <==> decoded[i] == 0)
  {
    hide Low, VarintValue, ReadPacked, Transform, Decoded, IsVarints, Unsigned, Pow2;
    PackedIsTransformed(k, s);
    var words := Decoded(s, WordWidth(k));
    forall i | 0 <= i < |words|
      ensures Unsigned(Transform(k, words[i]), Pow2(Width(k))) == words[i] <==> words[i] == 0
    {
      ZigZagDiffers(k, words[i]);
    }
  }

  /** A whole sint payload is read alike by both decoders exactly when every number is zero. */
  lemma ZigZagChunksAgree(k: Kind, s: bytes)
    requires IsZigZag(k) && IsVarints(s)
    ensures var r, decoded := ReadPacked(k, Input(s, |s|, true)), Decoded(s, Width(k));
            (|r.value| == |decoded| && forall i :: 0 <= i < |decoded| ==> Unsigned(r.value[i], Pow2(Width(k))) == decoded[i])
            <==> forall x :: x in decoded ==> x == 0
  {
    hide Pow2, Decoded, ReadPacked, Unsigned;
    ZigZagIsNotUndone(k, s);
    var decoded := Decoded(s, Width(k));
    assert forall i :: 0 <= i < |decoded| ==> decoded[i] in decoded;
  }

  lemma WholeWords(a: nat, b: nat, m: nat)
    requires m > 0
    ensures (a + b * m) % m == a % m
  {
    assert a == a % m + m * (a / m);
    assert m * (a / m + b) == m * (a / m) + b * m;
    RemainderIs(a + b * m, a / m + b, a % m, m);
  }

  /** The low byte of the low word is the low byte. */
  lemma ByteOfWord(v: nat)
    ensures Low(v, 8) == Low(Low(v, 32), 8)
  {
    Pow2Words();
    hide Pow2;
    assert v == v % TWO_32 + (v / TWO_32 * 0x1_000000) * 256;
    WholeWords(v % TWO_32, v / TWO_32 * 0x1_000000, 256);
  }

  lemma {:induction false} BytesOfWords(s: bytes)
    ensures |Decoded(s, 8)| == |Decoded(s, 32)|
    ensures forall i :: 0 <= i < |Decoded(s, 8)| ==> Decoded(s, 8)[i] == Low(Decoded(s, 32)[i], 8)
    decreases |s|
  {
    hide Low, VarintValue;
    if s != [] {
      ByteOfWord(VarintValue(s[..FirstVarint(s)]));
      BytesOfWords(s[FirstVarint(s)..]);
    }
  }

  lemma BoolDiffers(word: nat)
    requires word < TWO_32
    ensures Transform(BoolValue, word) == Low(word, 8) <==> Low(word, 8) == 1 || word == 0
  {
    Pow2Words();
    hide Pow2;
  }

  /** A bool payload is cut to one byte a number before it is looked at, while the field's
      parser looks at the low word: the two agree exactly on a low byte of one and on a low
      word of zero. */
  lemma BoolIsOneByte(s: bytes)
    requires IsVarints(s)
    ensures var r := ReadPacked(BoolValue, Input(s, |s|, true));
            && r.ok && |r.value| == |Decoded(s, 8)| == |Decoded(s, 32)|
            && forall i :: 0 <= i < |r.value| ==>
                 (r.value[i] == Decoded(s, 8)[i] <==> Decoded(s, 8)[i] == 1 || Decoded(s, 32)[i] == 0)
  {
    hide Low, ReadPacked, Transform, Decoded, IsVarints;
    PackedIsTransformed(BoolValue, s);
    BytesOfWords(s);
    var words := Decoded(s, 32);
    forall i | 0 <= i < |words|
      ensures Transform(BoolValue, words[i]) == Low(words[i], 8) <==> Low(words[i], 8) == 1 || words[i] == 0
    {
      BoolDiffers(words[i]);
    }
  }

  /** A whole bool payload is read alike exactly when that holds of each of its varints. */
  lemma BoolChunksAgree(s: bytes)
    requires IsVarints(s)
    ensures ReadPacked(BoolValue, Input(s, |s|, true)).value == Decoded(s, 8)
            <==> forall i :: 0 <= i < |Decoded(s, 8)| ==>
                   Decoded(s, 8)[i] == 1 || (i < |Decoded(s, 32)| && Decoded(s, 32)[i] == 0)
  {
    hide Decoded, ReadPacked;
    BoolIsOneByte(s);
  }

  // ------------------------------------------------------------------- one number

  /** CopyVarintBitValueField for a singular field: the stored varint cast to the element. */
  method CopySingularVarint(bits: nat, varint: nat) returns (val: nat)
    requires bits in {8, 32, 64} && varint < TWO_64
    ensures val == Low(varint, bits)
    ensures Decoded(EncodeVarint(varint), bits) == [val]
  {
    val := varint % Pow2(bits);
    EncodedIsOneVarint(varint, bits);
  }

  lemma {:induction false} EncodedIsFirst(v: nat)
    ensures FirstVarint(EncodeVarint(v)) == |EncodeVarint(v)| && VarintValue(EncodeVarint(v)) == v
    decreases v
  {
    if v >= 128 {
      EncodedIsFirst(v / 128);
      assert EncodeVarint(v)[1..] == EncodeVarint(v / 128);
    }
  }

  lemma EncodedIsOneVarint(v: nat, bits: nat)
    ensures Decoded(EncodeVarint(v), bits) == [Low(v, bits)]
  {
    hide EncodeVarint, VarintValue, FirstVarint, Low;
    EncodedIsFirst(v);
    var s := EncodeVarint(v);
    assert s[..|s|] == s && s[|s|..] == [];
    NothingDecoded(bits);
  }
}

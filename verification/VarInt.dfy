/** VarInts: seven bits a byte, least significant first, at most five bytes for 32 bits. */
module VarInt {
  import opened Bytes

  const MAX_BYTES: nat := 5

  /** The shortest encoding of an unsigned number. */
  function Encode(n: nat): (s: seq<byte>)
    ensures s != []
  {
    if n < 128 then [n] else [n % 128 + 128] + Encode(n / 128)
  }

  /** Where an encoding ends: after the first byte below 128, which must be among the first `limit`. */
  datatype Extent = Truncated | Overlong | Ends(size: nat)

  function ExtentOf(s: seq<byte>, limit: nat): (e: Extent)
    ensures e.Ends? ==> 0 < e.size <= |s| && e.size <= limit
  {
    if limit == 0 then Overlong
    else if s == [] then Truncated
    else if s[0] < 128 then Ends(1)
    else
      var rest := ExtentOf(s[1..], limit - 1);
      if rest.Ends? then Ends(1 + rest.size) else rest
  }

  /** The number that groups of seven bits stand for. */
  function Digits(s: seq<byte>): nat {
    if s == [] then 0 else s[0] % 128 + 128 * Digits(s[1..])
  }

  datatype Decoded = NotDecoded | Decoded(value: nat, size: nat)

  /** Bits above the 32nd are shifted out of the word. */
  function Decode(s: seq<byte>): (d: Decoded)
    ensures d.Decoded? ==> 0 < d.size <= |s| && d.size <= MAX_BYTES && d.value < WORD
  {
    var e := ExtentOf(s, MAX_BYTES);
    if e.Ends? then Decoded(Digits(s[..e.size]) % WORD, e.size) else NotDecoded
  }

  /** 128 to the power k. */
  function Scale(k: nat): (n: nat)
    ensures n > 0
  {
    if k == 0 then 1 else 128 * Scale(k - 1)
  }

  // encode_varint and decode_varint.

  method EncodeVarint(output: array<byte>, start: nat, value: int) returns (size: nat)
    requires IsInt32(value) && start + MAX_BYTES <= output.Length
    modifies output
    ensures 0 < size <= MAX_BYTES
    ensures output[start..start + size] == Encode(ToUnsigned(value))
    ensures forall i :: 0 <= i < output.Length && !(start <= i < start + size) ==> output[i] == old(output[i])
  {
    var encoded := ToUnsigned(value);
    size := 0;
    EncodeFits(encoded);
    while true
      invariant 0 <= size && size + |Encode(encoded)| <= MAX_BYTES
      invariant output[start..start + size] + Encode(encoded) == Encode(ToUnsigned(value))
      invariant forall i :: 0 <= i < output.Length && !(start <= i < start + size) ==> output[i] == old(output[i])
      decreases encoded
    {
      ghost var done := output[start..start + size];
      EncodeStep(done, encoded);
      var b := encoded % 128;
      encoded := encoded / 128;
      if encoded != 0 { b := b + 128; }
      output[start + size] := b;
      size := size + 1;
      assert output[start..start + size] == done + [b];
      if encoded == 0 { break; }
    }
  }

  /** `offset` moves past every byte looked at, also when the result is -1. The seven bits of a byte never meet the
    * bits below them, so that adding them is or-ing them. */
  method DecodeVarint(input: seq<byte>, offset: nat) returns (status: int, offset': nat, value: int)
    requires offset <= |input|
    ensures status == 0 || status == -1
    ensures offset <= offset' <= |input|
    ensures status == 0 <==> Decode(input[offset..]).Decoded?
    ensures status == 0 ==> var d := Decode(input[offset..]);
                            offset' == offset + d.size && value == ToSigned(d.value)
  {
    var decoded := 0;
    offset', value := offset, 0;
    ghost var s := input[offset..];
    for index := 0 to 5
      invariant offset' == offset + index <= |input|
      invariant decoded == Digits(s[..index]) % WORD
      invariant ExtentOf(s, MAX_BYTES) == Later(ExtentOf(s[index..], MAX_BYTES - index), index)
    {
      if offset' >= |input| { return -1, offset', value; }
      var b := input[offset'];
      offset' := offset' + 1;
      NextGroup(s, index);
      decoded := decoded + (b % 128 * Scale(index)) % WORD;
      if b < 128 {
        return 0, offset', ToSigned(decoded);
      }
    }
    status := -1;
  }

  /** One turn of the decoding loops. */
  lemma NextGroup(s: seq<byte>, index: nat)
    requires index < MAX_BYTES && index < |s|
    requires ExtentOf(s, MAX_BYTES) == Later(ExtentOf(s[index..], MAX_BYTES - index), index)
    ensures Digits(s[..index]) % WORD + s[index] % 128 * Scale(index) % WORD == Digits(s[..index + 1]) % WORD
    ensures ExtentOf(s, MAX_BYTES)
         == if s[index] < 128 then Ends(index + 1)
            else Later(ExtentOf(s[index + 1..], MAX_BYTES - (index + 1)), index + 1)
  {
    DigitsAppend(s[..index], s[index]);
    assert s[..index] + [s[index]] == s[..index + 1];
    ExtentStep(s[index..], MAX_BYTES - index);
    assert s[index..][1..] == s[index + 1..];
    AddGroup(Digits(s[..index]), s[index] % 128, index);
  }

  /** One turn of the encoding loop. */
  lemma EncodeStep(done: seq<byte>, n: nat)
    ensures n / 128 == 0 ==> n % 128 == n && Encode(n) == [n] && done + Encode(n) == done + [n]
    ensures n / 128 != 0 ==> |Encode(n)| == 1 + |Encode(n / 128)|
                             && done + Encode(n) == done + [n % 128 + 128] + Encode(n / 128)
  {
    if n / 128 != 0 {
      assert Encode(n) == [n % 128 + 128] + Encode(n / 128);
      assert done + ([n % 128 + 128] + Encode(n / 128)) == done + [n % 128 + 128] + Encode(n / 128);
    }
  }

  lemma ExtentStep(s: seq<byte>, limit: nat)
    requires s != [] && limit > 0
    ensures ExtentOf(s, limit) == if s[0] < 128 then Ends(1) else Later(ExtentOf(s[1..], limit - 1), 1)
  {}

  function Later(e: Extent, k: nat): Extent {
    if e.Ends? then Ends(k + e.size) else e
  }

  lemma ScaleValues()
    ensures Scale(0) == 1 && Scale(1) == 0x80 && Scale(2) == 0x4000 && Scale(3) == 0x20_0000
    ensures Scale(4) == 0x1000_0000 && Scale(5) == 0x8_0000_0000
  {
    assert Scale(1) == 128 * Scale(0);
    assert Scale(2) == 128 * Scale(1);
    assert Scale(3) == 128 * Scale(2);
    assert Scale(4) == 128 * Scale(3);
    assert Scale(5) == 128 * Scale(4);
  }

  lemma {:induction false} DigitsAppend(s: seq<byte>, b: byte)
    ensures Digits(s + [b]) == Digits(s) + b % 128 * Scale(|s|)
    ensures Digits(s) < Scale(|s|)
  {
    if s == [] {
      assert [b][1..] == [];
    } else {
      assert (s + [b])[1..] == s[1..] + [b];
      DigitsAppend(s[1..], b);
      ShiftGroup(b % 128, Scale(|s| - 1));
    }
  }

  lemma ShiftGroup(group: nat, scale: nat)
    ensures 128 * (group * scale) == group * (128 * scale)
  {}

  lemma WholeWords(q: nat, x: nat)
    requires x < WORD
    ensures (q * WORD + x) % WORD == x
  {
    assert (q * WORD + x) / WORD == q;
  }

  /** Or-ing a group into the word, with the bits above the word cut off. */
  lemma AddGroup(acc: nat, group: nat, index: nat)
    requires index < 5 && group < 128 && acc < Scale(index)
    ensures acc % WORD == acc
    ensures acc + group * Scale(index) % WORD == (acc + group * Scale(index)) % WORD
  {
    ScaleValues();
    var shifted := group * Scale(index);
    if index == 4 {
      assert shifted == group * 0x1000_0000;
      TopGroup(acc, group);
    } else {
      Product(group, Scale(index), 128, 0x20_0000);
      WholeWords(0, shifted);
      WholeWords(0, acc + shifted);
    }
    WholeWords(0, acc);
  }

  lemma TopGroup(acc: nat, group: nat)
    requires group < 128 && acc < 0x1000_0000
    ensures acc + group * 0x1000_0000 % WORD == (acc + group * 0x1000_0000) % WORD
  {
    var q, r := group / 16, group % 16 * 0x1000_0000;
    assert group * 0x1000_0000 == q * WORD + r;
    WholeWords(q, r);
    WholeWords(q, acc + r);
  }

  lemma Product(a: nat, b: nat, c: nat, d: nat)
    requires a < c && b <= d
    ensures a * b <= (c - 1) * d
  {
    assert a * b <= (c - 1) * b <= (c - 1) * d;
  }

  lemma {:induction false} EncodeLength(n: nat, k: nat)
    requires n < Scale(k) && k > 0
    ensures |Encode(n)| <= k
  {
    if n >= 128 {
      assert Scale(k) == 128 * Scale(k - 1);
      EncodeLength(n / 128, k - 1);
    }
  }

  lemma EncodeFits(n: nat)
    requires n < WORD
    ensures |Encode(n)| <= MAX_BYTES
  {
    ScaleValues();
    EncodeLength(n, MAX_BYTES);
  }

  // Decoding inverts encoding.

  lemma {:induction false} DigitsOfEncode(n: nat)
    ensures Digits(Encode(n)) == n
  {
    if n >= 128 {
      DigitsOfEncode(n / 128);
      assert Encode(n)[1..] == Encode(n / 128);
    } else {
      assert Encode(n)[1..] == [];
    }
  }

  lemma {:induction false} ExtentOfEncode(n: nat, t: seq<byte>, limit: nat)
    requires |Encode(n)| <= limit
    ensures ExtentOf(Encode(n) + t, limit) == Ends(|Encode(n)|)
  {
    if n >= 128 {
      ExtentOfEncode(n / 128, t, limit - 1);
      assert (Encode(n) + t)[1..] == Encode(n / 128) + t;
    }
  }

  /** Every 32-bit value comes back, whatever follows its encoding. */
  lemma DecodeInvertsEncode(n: nat, t: seq<byte>)
    requires n < WORD
    ensures Decode(Encode(n) + t) == Decoded(n, |Encode(n)|)
  {
    EncodeFits(n);
    ExtentOfEncode(n, t, MAX_BYTES);
    DigitsOfEncode(n);
    assert (Encode(n) + t)[..|Encode(n)|] == Encode(n);
  }

  /** A successful decode depends only on the bytes it consumes. */
  lemma DecodeIsLocal(s: seq<byte>, t: seq<byte>)
    requires Decode(s).Decoded? && s[..Decode(s).size] <= t
    ensures Decode(t) == Decode(s)
  {
    ExtentIsLocal(s, t, MAX_BYTES);
    assert t[..Decode(s).size] == s[..Decode(s).size];
  }

  lemma {:induction false} ExtentIsLocal(s: seq<byte>, t: seq<byte>, limit: nat)
    requires ExtentOf(s, limit).Ends? && s[..ExtentOf(s, limit).size] <= t
    ensures ExtentOf(t, limit) == ExtentOf(s, limit)
  {
    var n := ExtentOf(s, limit).size;
    assert s[0] == s[..n][0] == t[0];
    if s[0] >= 128 {
      assert s[..n][1..] == s[1..][..n - 1];
      ExtentIsLocal(s[1..], t[1..], limit - 1);
    }
  }

  // Which encodings are shortest.

  /** An encoding that decodes to the number in its digits and wastes no last byte. */
  predicate Canonical(s: seq<byte>) {
    |s| == 1 || (|s| > 1 && s[|s| - 1] != 0 && (|s| == 5 ==> s[4] <= 0x0f))
  }

  lemma {:induction false} EncodeOfDigits(s: seq<byte>, limit: nat)
    requires ExtentOf(s, limit) == Ends(|s|)
    ensures |Encode(Digits(s))| <= |s|
    ensures Encode(Digits(s)) == s <==> |s| == 1 || s[|s| - 1] != 0
  {
    if s[0] < 128 {
      assert s[1..] == [];
    } else {
      var tail := s[1..];
      assert s == [s[0]] + tail;
      EncodeOfDigits(tail, limit - 1);
      var n := Digits(s);
      assert n == s[0] - 128 + 128 * Digits(tail);
      assert n % 128 == s[0] - 128 && n / 128 == Digits(tail);
      assert tail[|tail| - 1] == s[|s| - 1];
      if n < 128 {
        assert Digits(tail) == 0;
        assert Encode(0) == [0];
      } else {
        PrependGroup(s[0], tail, n);
      }
    }
  }

  lemma PrependGroup(b: byte, tail: seq<byte>, n: nat)
    requires b >= 128 && tail != [] && n >= 128 && n % 128 == b - 128 && n / 128 == Digits(tail)
    ensures |Encode(n)| == 1 + |Encode(Digits(tail))|
    ensures Encode(n) == [b] + tail <==> Encode(Digits(tail)) == tail
    ensures |tail| == 1 ==> tail[0] != 0
  {
    var rest := Encode(Digits(tail));
    assert Encode(n) == [b] + rest;
    assert ([b] + rest)[1..] == rest && ([b] + tail)[1..] == tail;
    if |tail| == 1 { assert tail[1..] == [] && Digits(tail) == tail[0] % 128; }
  }

  lemma {:induction false} DigitsBelow(s: seq<byte>)
    ensures Digits(s) < Scale(|s|)
  {
    if s != [] { DigitsBelow(s[1..]); }
  }

  /** Five groups fit in the word exactly when the last is at most 0x0f. */
  lemma FiveGroups(s: seq<byte>)
    requires |s| == 5 && s[4] < 128
    ensures Digits(s) % WORD == Digits(s) <==> s[4] <= 0x0f
  {
    ScaleValues();
    assert s == s[..4] + [s[4]];
    DigitsAppend(s[..4], s[4]);
  }

  lemma FewGroups(s: seq<byte>)
    requires |s| < 5
    ensures Digits(s) % WORD == Digits(s)
  {
    ScaleValues();
    DigitsBelow(s);
  }

  /** A decoded value re-encodes in at most the bytes it came from, and to the same bytes exactly when those are
    * canonical. */
  lemma ReencodeIsShortest(s: seq<byte>)
    requires Decode(s).Decoded?
    ensures var d := Decode(s);
            |Encode(d.value)| <= d.size && (Encode(d.value) == s[..d.size] <==> Canonical(s[..d.size]))
  {
    var d := Decode(s);
    var used := s[..d.size];
    assert ExtentOf(used, MAX_BYTES) == Ends(|used|) by { ExtentIsLocal(s, used, MAX_BYTES); }
    EncodeOfDigits(used, MAX_BYTES);
    if |used| == 5 {
      EndsBelow(used, MAX_BYTES);
      FiveGroups(used);
      EncodeFits(d.value);
      DigitsOfEncode(d.value);
    } else {
      FewGroups(used);
    }
  }

  lemma {:induction false} EndsBelow(s: seq<byte>, limit: nat)
    requires ExtentOf(s, limit).Ends?
    ensures s[ExtentOf(s, limit).size - 1] < 128
  {
    if s[0] >= 128 { EndsBelow(s[1..], limit - 1); }
  }

  // The readers of api.c, mc_reader_varint and mc_reader_varlong, refuse bits that the number has no room for.

  /** Where an encoding of at most `limit` bytes ends, the last of which is at most `top`. */
  function ExtentUnder(s: seq<byte>, limit: nat, top: nat): (e: Extent)
    ensures e.Ends? ==> 0 < e.size <= |s| && e.size <= limit
  {
    if limit == 0 then Overlong
    else if s == [] then Truncated
    else if limit == 1 && s[0] > top then Overlong
    else if s[0] < 128 then Ends(1)
    else Later(ExtentUnder(s[1..], limit - 1, top), 1)
  }

  function DecodeUnder(s: seq<byte>, limit: nat, top: nat): (d: Decoded)
    ensures d.Decoded? ==> 0 < d.size <= |s| && d.size <= limit
  {
    var e := ExtentUnder(s, limit, top);
    if e.Ends? then Decoded(Digits(s[..e.size]), e.size) else NotDecoded
  }

  /** What they refuse beyond an encoding that is too long: a last possible byte above `top`. */
  lemma {:induction false} UnderIs(s: seq<byte>, limit: nat, top: nat)
    requires top < 128
    ensures ExtentUnder(s, limit, top) == var e := ExtentOf(s, limit);
                                          if e == Ends(limit) && s[limit - 1] > top then Overlong else e
  {
    if limit > 0 && s != [] && s[0] >= 128 { UnderIs(s[1..], limit - 1, top); }
  }

  /** Of 32 bits, they read what the mock server reads, but for the bits that it shifts out of the word. */
  lemma UnderIsDecode(s: seq<byte>)
    ensures DecodeUnder(s, MAX_BYTES, 0x0f)
         == if Decode(s).Decoded? && !(Decode(s).size == MAX_BYTES && s[4] > 0x0f) then Decode(s) else NotDecoded
  {
    UnderIs(s, MAX_BYTES, 0x0f);
    var e := ExtentOf(s, MAX_BYTES);
    if e.Ends? {
      if e.size == MAX_BYTES {
        EndsBelow(s, MAX_BYTES);
        FiveGroups(s[..5]);
      } else {
        FewGroups(s[..e.size]);
      }
    }
  }

  lemma DigitsUnder(s: seq<byte>, limit: nat, top: nat)
    requires top < 128 && limit > 0 && DecodeUnder(s, limit, top).Decoded?
    ensures DecodeUnder(s, limit, top).value < Scale(limit - 1) * (top + 1)
  {
    var n := ExtentUnder(s, limit, top).size;
    UnderIs(s, limit, top);
    if n == limit {
      assert s[..n] == s[..n - 1] + [s[n - 1]];
      TopDigits(s[..n - 1], s[n - 1], top);
    } else {
      FewDigits(s[..n], limit - 1, top);
    }
  }

  lemma TopDigits(front: seq<byte>, b: byte, top: nat)
    requires b <= top < 128
    ensures Digits(front + [b]) < Scale(|front|) * (top + 1)
  {
    var group, scale := b % 128, Scale(|front|);
    assert group <= top;
    DigitsAppend(front, b);
    RoomFor(Digits(front), group, top, scale);
    assert Digits(front + [b]) == Digits(front) + group * scale;
  }

  lemma RoomFor(d: nat, group: nat, top: nat, scale: nat)
    requires d < scale && group <= top
    ensures d + group * scale < scale * (top + 1)
  {
    ScaleTimes(group, top, scale);
  }

  lemma FewDigits(s: seq<byte>, k: nat, top: nat)
    requires |s| <= k
    ensures Digits(s) < Scale(k) * (top + 1)
  {
    DigitsBelow(s);
    ScaleGrows(|s|, k);
    ScaleTimes(0, top, Scale(k));
  }

  lemma ScaleTimes(group: nat, top: nat, scale: nat)
    requires group <= top
    ensures group * scale + scale <= scale * (top + 1)
  {
    assert (group + 1) * scale <= (top + 1) * scale;
  }

  lemma {:induction false} ScaleGrows(j: nat, k: nat)
    requires j <= k
    ensures Scale(j) <= Scale(k)
  {
    if j < k { ScaleGrows(j, k - 1); }
  }

  lemma {:induction false} UnderIsLocal(s: seq<byte>, t: seq<byte>, limit: nat, top: nat)
    requires DecodeUnder(s, limit, top).Decoded? && s[..DecodeUnder(s, limit, top).size] <= t
    ensures DecodeUnder(t, limit, top) == DecodeUnder(s, limit, top)
  {
    ExtentUnderIsLocal(s, t, limit, top);
    assert t[..DecodeUnder(s, limit, top).size] == s[..DecodeUnder(s, limit, top).size];
  }

  lemma {:induction false} ExtentUnderIsLocal(s: seq<byte>, t: seq<byte>, limit: nat, top: nat)
    requires ExtentUnder(s, limit, top).Ends? && s[..ExtentUnder(s, limit, top).size] <= t
    ensures ExtentUnder(t, limit, top) == ExtentUnder(s, limit, top)
  {
    var n := ExtentUnder(s, limit, top).size;
    assert s[0] == s[..n][0] == t[0];
    if s[0] >= 128 {
      assert s[..n][1..] == s[1..][..n - 1];
      ExtentUnderIsLocal(s[1..], t[1..], limit - 1, top);
    }
  }

  /** What there is room for comes back, whatever follows its encoding. */
  lemma {:induction false} ExtentUnderOfEncode(n: nat, t: seq<byte>, limit: nat, top: nat)
    requires limit > 0 && top < 128 && n < Scale(limit - 1) * (top + 1)
    ensures ExtentUnder(Encode(n) + t, limit, top) == Ends(|Encode(n)|)
  {
    if limit == 1 {
      assert Scale(0) == 1;
    } else if n >= 128 {
      assert Scale(limit - 1) == 128 * Scale(limit - 2);
      ShiftGroup(top + 1, Scale(limit - 2));
      assert n / 128 < Scale(limit - 2) * (top + 1);
      assert (Encode(n) + t)[1..] == Encode(n / 128) + t;
      ExtentUnderOfEncode(n / 128, t, limit - 1, top);
    }
  }

  lemma UnderInvertsEncode(n: nat, t: seq<byte>, limit: nat, top: nat)
    requires limit > 0 && top < 128 && n < Scale(limit - 1) * (top + 1)
    ensures DecodeUnder(Encode(n) + t, limit, top) == Decoded(n, |Encode(n)|)
  {
    ExtentUnderOfEncode(n, t, limit, top);
    DigitsOfEncode(n);
    assert (Encode(n) + t)[..|Encode(n)|] == Encode(n);
  }
}

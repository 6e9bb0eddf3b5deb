/**
 The base32 printer for TOTP secrets. It works through a string of '0' and '1' characters and drops
 the last bits when they do not fill a symbol, where section 6 of RFC 4648 would pad them.
 */
module Base32 {
  import opened Numbers
  import opened Seqs

  type Byte = n: nat | n < 256

  const ALPHABET := "ABCDEFGHIJKLMNOPQRSTUVWXYZ234567"

  predicate IsBits(s: string) {
    forall i :: 0 <= i < |s| ==> s[i] == '0' || s[i] == '1'
  }

  /** `parseInt(s, 2)` of a text of bits. */
  function ParseBits(s: string): nat
    requires IsBits(s)
  {
    if s == "" then 0 else 2 * ParseBits(s[..|s| - 1]) + (if s[|s| - 1] == '1' then 1 else 0)
  }

  /** `n.toString(2)` */
  function BinaryText(n: nat): (s: string)
    ensures s != "" && IsBits(s)
  {
    if n < 2 then (if n == 0 then "0" else "1")
    else BinaryText(n / 2) + (if n % 2 == 0 then "0" else "1")
  }

  /** `s.padStart(width, '0')` */
  function PadStart(s: string, width: nat): (r: string)
    requires IsBits(s)
    ensures IsBits(r) && |r| == if |s| < width then width else |s|
    decreases width - |s|
  {
    if |s| < width then PadStart("0" + s, width) else s
  }

  /** The bits of a buffer, eight to a byte. */
  function BitText(buf: seq<Byte>): (s: string)
    ensures IsBits(s)
  {
    if buf == [] then "" else BitText(buf[..|buf| - 1]) + PadStart(BinaryText(buf[|buf| - 1]), 8)
  }

  function Symbol(v: nat): char
    requires v < 32
  {
    ALPHABET[v]
  }

  /** The printed text: one symbol for every full group of five bits. */
  function Symbols(bits: string): (out: string)
    requires IsBits(bits)
    ensures |out| == |bits| / 5
    decreases |bits|
  {
    if |bits| < 5 then ""
    else
      ParseBound(bits[..5]);
      [Symbol(ParseBits(bits[..5]))] + Symbols(bits[5..])
  }

  function Encode(buf: seq<Byte>): string {
    Symbols(BitText(buf))
  }

  lemma {:induction false} ParseBound(s: string)
    requires IsBits(s)
    ensures ParseBits(s) < Pow2(|s|)
    ensures |s| == 5 ==> ParseBits(s) < 32
  {
    if s != "" {
      ParseBound(s[..|s| - 1]);
    }
    PowersOfTwo();
  }

  lemma PowersOfTwo()
    ensures Pow2(5) == 32 && Pow2(8) == 256
  {
    assert Pow2(4) == 16;
  }

  lemma SymbolsCons(group: string, rest: string)
    requires IsBits(group) && |group| == 5 && IsBits(rest)
    ensures ParseBits(group) < 32
    ensures Symbols(group + rest) == [Symbol(ParseBits(group))] + Symbols(rest)
  {
    ParseBound(group);
    assert (group + rest)[..5] == group;
    assert (group + rest)[5..] == rest;
  }

  lemma SymbolsStep(bits: string, i: nat)
    requires IsBits(bits) && i + 5 <= |bits|
    ensures IsBits(bits[i..i + 5]) && ParseBits(bits[i..i + 5]) < 32
    ensures Symbols(bits[i..]) == [Symbol(ParseBits(bits[i..i + 5]))] + Symbols(bits[i + 5..])
  {
    SymbolsCons(bits[i..i + 5], bits[i + 5..]);
    assert bits[i..] == bits[i..i + 5] + bits[i + 5..];
  }

  lemma {:induction false} SymbolsDropTail(groups: string, tail: string)
    requires IsBits(groups) && |groups| % 5 == 0 && IsBits(tail) && |tail| < 5
    ensures Symbols(groups + tail) == Symbols(groups)
    decreases |groups|
  {
    if groups == "" {
      assert groups + tail == tail;
    } else {
      var group, rest := groups[..5], groups[5..];
      SymbolsDropTail(rest, tail);
      SymbolsCons(group, rest + tail);
      SymbolsCons(group, rest);
      ConcatAssociative(group, rest, tail);
      assert groups == group + rest;
    }
  }

  lemma TakeGroups(bits: string) returns (groups: string, tail: string)
    requires IsBits(bits)
    ensures bits == groups + tail && IsBits(groups) && IsBits(tail)
    ensures |groups| == |bits| / 5 * 5 && |tail| < 5 && groups == bits[..|groups|]
  {
    var n := |bits| / 5 * 5;
    groups, tail := bits[..n], bits[n..];
  }

  /** Bits past the last full group do not reach the text. */
  lemma SymbolsOfPrefix(bits: string) returns (groups: string)
    requires IsBits(bits)
    ensures |groups| == |bits| / 5 * 5 && groups == bits[..|groups|]
    ensures IsBits(groups) && Symbols(bits) == Symbols(groups)
  {
    var tail;
    groups, tail := TakeGroups(bits);
    SymbolsSplit(bits, groups, tail);
  }

  lemma SymbolsSplit(bits: string, groups: string, tail: string)
    requires IsBits(groups) && |groups| % 5 == 0 && IsBits(tail) && |tail| < 5 && bits == groups + tail
    ensures IsBits(bits) && Symbols(bits) == Symbols(groups)
  {
    SymbolsDropTail(groups, tail);
  }

  lemma BitTextStep(buf: seq<Byte>, j: nat)
    requires j < |buf|
    ensures BitText(buf[..j + 1]) == BitText(buf[..j]) + PadStart(BinaryText(buf[j]), 8)
  {
    assert buf[..j + 1][..j] == buf[..j];
  }

  lemma EncodeLength(buf: seq<Byte>)
    ensures |Encode(buf)| == 8 * |buf| / 5
  {
    BitTextLength(buf);
  }

  /** `bufferToBase32(buf)` */
  method BufferToBase32(buf: seq<Byte>) returns (out: string)
    ensures out == Encode(buf)
    ensures |out| == 8 * |buf| / 5
  {
    var bits := "";
    for j := 0 to |buf|
      invariant bits == BitText(buf[..j])
    {
      BitTextStep(buf, j);
      bits := bits + PadStart(BinaryText(buf[j]), 8);
    }
    assert buf[..|buf|] == buf;
    out := WriteSymbols(bits);
    EncodeLength(buf);
  }

  /** The second loop: a symbol for every full group of five bits. */
  method WriteSymbols(bits: string) returns (out: string)
    requires IsBits(bits)
    ensures out == Symbols(bits)
  {
    out := "";
    var i := 0;
    while i + 5 <= |bits|
      invariant 0 <= i <= |bits|
      invariant Symbols(bits) == out + Symbols(bits[i..])
    {
      SymbolsStep(bits, i);
      var symbol := Symbol(ParseBits(bits[i..i + 5]));
      ConcatAssociative(out, [symbol], Symbols(bits[i + 5..]));
      out := out + [symbol];
      i := i + 5;
    }
    assert Symbols(bits[i..]) == "";
  }

  // ----- Bytes and their bits -----

  lemma {:induction false} PadStartParses(s: string, width: nat)
    requires IsBits(s)
    ensures ParseBits(PadStart(s, width)) == ParseBits(s)
    decreases width - |s|
  {
    if |s| < width {
      LeadingZero(s);
      PadStartParses("0" + s, width);
    }
  }

  lemma {:induction false} LeadingZero(s: string)
    requires IsBits(s)
    ensures ParseBits("0" + s) == ParseBits(s)
  {
    if s == "" {
      assert ("0" + s)[..0] == "";
    } else {
      LeadingZero(s[..|s| - 1]);
      assert ("0" + s)[..|s|] == "0" + s[..|s| - 1];
    }
  }

  lemma {:induction false} BinaryTextParses(n: nat, width: nat)
    requires width > 0
    ensures ParseBits(BinaryText(n)) == n
    ensures n < Pow2(width) ==> |BinaryText(n)| <= width
  {
    if n < 2 {
      assert BinaryText(n)[..0] == "";
    } else {
      BinaryTextParses(n / 2, if width == 1 then 1 else width - 1);
      assert BinaryText(n)[..|BinaryText(n)| - 1] == BinaryText(n / 2);
    }
  }

  /** Eight bits for each byte, and they denote it. */
  lemma ByteBits(b: Byte)
    ensures var s := PadStart(BinaryText(b), 8); |s| == 8 && ParseBits(s) == b
  {
    PowersOfTwo();
    BinaryTextParses(b, 8);
    PadStartParses(BinaryText(b), 8);
  }

  lemma {:induction false} BitTextLength(buf: seq<Byte>)
    ensures |BitText(buf)| == 8 * |buf|
  {
    if buf != [] {
      BitTextLength(buf[..|buf| - 1]);
      ByteBits(buf[|buf| - 1]);
    }
  }

  lemma {:induction false} BitTextPrefix(buf: seq<Byte>, k: nat)
    requires k <= |buf|
    ensures 8 * k <= |BitText(buf)| && BitText(buf)[..8 * k] == BitText(buf[..k])
  {
    BitTextLength(buf);
    BitTextLength(buf[..k]);
    if k == |buf| {
      assert buf[..k] == buf && BitText(buf)[..8 * k] == BitText(buf);
    } else {
      var n := |buf| - 1;
      BitTextPrefix(buf[..n], k);
      assert buf[..n][..k] == buf[..k];
      BitTextLength(buf[..n]);
      assert BitText(buf)[..8 * k] == BitText(buf[..n])[..8 * k];
    }
  }

  lemma {:induction false} ParseInjective(a: string, b: string)
    requires IsBits(a) && IsBits(b) && |a| == |b| && ParseBits(a) == ParseBits(b)
    ensures a == b
  {
    if a != "" {
      var n := |a| - 1;
      ParseInjective(a[..n], b[..n]);
      assert a == a[..n] + [a[n]] && b == b[..n] + [b[n]];
    }
  }

  // ----- Reading the text back -----

  /** A symbol of the alphabet of section 6 of RFC 4648 as a number. */
  function SymbolValue(c: char): (v: nat)
    ensures v < 32
  {
    if 'A' <= c <= 'Z' then c as int - 'A' as int
    else if '2' <= c <= '7' then c as int - '2' as int + 26
    else 0
  }

  lemma SymbolValueOf(v: nat)
    requires v < 32
    ensures SymbolValue(Symbol(v)) == v
  {
    if v < 26 {
      assert ALPHABET[v] == ('A' as int + v) as char;
    } else {
      assert ALPHABET[v] == ('2' as int + (v - 26)) as char;
    }
  }

  /** A reader: five bits for every symbol. */
  function DecodeBits(text: string): (bits: string)
    ensures IsBits(bits)
  {
    if text == "" then "" else PadStart(BinaryText(SymbolValue(text[0])), 5) + DecodeBits(text[1..])
  }

  /** ... and a byte for every eight bits. */
  function Bytes(bits: string): seq<Byte>
    requires IsBits(bits)
    decreases |bits|
  {
    if |bits| < 8 then []
    else
      ParseBound(bits[..8]);
      PowersOfTwo();
      [ParseBits(bits[..8])] + Bytes(bits[8..])
  }

  function Decode(text: string): seq<Byte> {
    Bytes(DecodeBits(text))
  }

  lemma GroupReadsBack(group: string)
    requires IsBits(group) && |group| == 5
    ensures ParseBits(group) < 32
    ensures PadStart(BinaryText(SymbolValue(Symbol(ParseBits(group)))), 5) == group
  {
    ParseBound(group);
    PowersOfTwo();
    var v := ParseBits(group);
    SymbolValueOf(v);
    BinaryTextParses(v, 5);
    PadStartParses(BinaryText(v), 5);
    ParseInjective(PadStart(BinaryText(v), 5), group);
  }

  lemma {:induction false} SymbolsReadBack(bits: string)
    requires IsBits(bits) && |bits| % 5 == 0
    ensures DecodeBits(Symbols(bits)) == bits
    decreases |bits|
  {
    if bits != "" {
      var group, rest := bits[..5], bits[5..];
      SymbolsReadBack(rest);
      GroupReadsBack(group);
      SymbolsCons(group, rest);
      DecodeCons(Symbol(ParseBits(group)), Symbols(rest));
      assert bits == group + rest;
    }
  }

  lemma DecodeCons(c: char, rest: string)
    ensures DecodeBits([c] + rest) == PadStart(BinaryText(SymbolValue(c)), 5) + DecodeBits(rest)
  {
    assert ([c] + rest)[1..] == rest;
  }

  /** Reading the text recovers exactly the longest prefix of the bits whose length is a multiple of five. */
  lemma BitsReadBack(buf: seq<Byte>)
    ensures |Encode(buf)| == 8 * |buf| / 5
    ensures |BitText(buf)| == 8 * |buf|
    ensures DecodeBits(Encode(buf)) == BitText(buf)[..8 * |buf| / 5 * 5]
  {
    BitTextLength(buf);
    var groups := SymbolsOfPrefix(BitText(buf));
    SymbolsReadBack(groups);
  }

  lemma {:induction false} BytesOfBits(buf: seq<Byte>, rest: string)
    requires IsBits(rest) && |rest| < 8
    ensures Bytes(BitText(buf) + rest) == buf
  {
    if buf == [] {
      assert BitText(buf) + rest == rest;
    } else {
      BytesOfBits(buf[1..], rest);
      BitTextCons(buf);
      var first, tail := PadStart(BinaryText(buf[0]), 8), BitText(buf[1..]);
      ByteBits(buf[0]);
      var all := BitText(buf) + rest;
      assert all == first + (tail + rest);
      assert all[..8] == first && all[8..] == tail + rest;
    }
  }

  lemma {:induction false} BitTextCons(buf: seq<Byte>)
    requires buf != []
    ensures BitText(buf) == PadStart(BinaryText(buf[0]), 8) + BitText(buf[1..])
  {
    var n := |buf| - 1;
    if n == 0 {
      assert buf[..0] == [] && buf[1..] == [];
    } else {
      BitTextCons(buf[..n]);
      BitTextStep(buf, n);
      assert buf[..n + 1] == buf;
      assert buf[1..][..n - 1] == buf[..n][1..];
      ConcatAssociative(PadStart(BinaryText(buf[0]), 8), BitText(buf[..n][1..]), PadStart(BinaryText(buf[n]), 8));
    }
  }

  /** A reader recovers every byte when the length is a multiple of five and all but the last otherwise. */
  lemma ReadsBack(buf: seq<Byte>)
    ensures Decode(Encode(buf)) == if |buf| % 5 == 0 then buf else buf[..|buf| - 1]
  {
    BitsReadBack(buf);
    var n := |buf|;
    var kept := 8 * n / 5 * 5;
    var k := if n % 5 == 0 then n else n - 1;
    KeptBytes(n);
    BitTextPrefix(buf, k);
    var rest := BitText(buf)[8 * k..kept];
    assert BitText(buf)[..kept] == BitText(buf)[..8 * k] + rest;
    BytesOfBits(buf[..k], rest);
    assert n % 5 == 0 ==> buf[..k] == buf;
  }

  lemma KeptBytes(n: nat)
    ensures n % 5 == 0 ==> 8 * n / 5 * 5 == 8 * n
    ensures n % 5 != 0 ==> 8 * (n - 1) <= 8 * n / 5 * 5 < 8 * n
  {
    var q, r := n / 5, n % 5;
    var t := if r == 0 then 0 else if r == 1 then 1 else if r == 2 then 3 else if r == 3 then 4 else 6;
    assert 5 * (8 * q + t) <= 8 * n < 5 * (8 * q + t) + 5;
    assert 8 * n / 5 == 8 * q + t;
  }

  ghost predicate InjectiveOn(n: nat) {
    forall a: seq<Byte>, b: seq<Byte> :: |a| == n && |b| == n && Encode(a) == Encode(b) ==> a == b
  }

  /** The text tells all secrets of one length apart exactly when the length is a multiple of five. */
  lemma InjectiveIff(n: nat)
    ensures InjectiveOn(n) <==> n % 5 == 0
  {
    if n % 5 == 0 {
      forall a: seq<Byte>, b: seq<Byte> | |a| == n && |b| == n && Encode(a) == Encode(b) ensures a == b {
        ReadsBack(a);
        ReadsBack(b);
      }
    } else {
      LastBitLost(seq(n - 1, i => 0));
    }
  }

  /** Two buffers that differ only in the last bit print alike when the length is no multiple of five. */
  lemma LastBitLost(head: seq<Byte>)
    requires (|head| + 1) % 5 != 0
    ensures Encode(head + [0]) == Encode(head + [1])
  {
    var zero, one := BitText(head + [0]), BitText(head + [1]);
    LastByteBits(head, 0);
    LastByteBits(head, 1);
    BitTextLength(head);
    KeptBytes(|head| + 1);
    var a := SymbolsOfPrefix(zero);
    var b := SymbolsOfPrefix(one);
    SamePrefix(BitText(head) + "0000000", "0", "1", |a|);
  }

  lemma LastByteBits(head: seq<Byte>, b: Byte)
    requires b < 2
    ensures BitText(head + [b]) == BitText(head) + "0000000" + BinaryText(b)
  {
    assert (head + [b])[..|head|] == head;
    OneBit(b);
    ConcatAssociative(BitText(head), "0000000", BinaryText(b));
  }

  lemma SamePrefix(common: string, x: string, y: string, k: nat)
    requires k <= |common|
    ensures (common + x)[..k] == (common + y)[..k]
  {
  }

  lemma OneBit(b: Byte)
    requires b < 2
    ensures PadStart(BinaryText(b), 8) == "0000000" + BinaryText(b)
  {
    ByteBits(b);
    var text := "0000000" + BinaryText(b);
    LeadingZeros("0000000", BinaryText(b));
    ParseInjective(PadStart(BinaryText(b), 8), text);
  }

  lemma {:induction false} LeadingZeros(zeros: string, s: string)
    requires IsBits(s) && forall i :: 0 <= i < |zeros| ==> zeros[i] == '0'
    ensures IsBits(zeros + s) && ParseBits(zeros + s) == ParseBits(s)
  {
    if zeros == "" {
      assert zeros + s == s;
    } else {
      LeadingZeros(zeros[1..], s);
      LeadingZero(zeros[1..] + s);
      assert zeros + s == "0" + (zeros[1..] + s);
    }
  }

  /** The 20 bytes of a derived secret print as 32 symbols and read back whole. */
  lemma SecretReadsBack(mac: seq<Byte>)
    requires |mac| >= 20
    ensures |Encode(mac[..20])| == 32 && Decode(Encode(mac[..20])) == mac[..20]
  {
    BitsReadBack(mac[..20]);
    ReadsBack(mac[..20]);
  }
}

/**
 Rewriting a verifier blob from the aggregator's normalised `R || S` signatures to the compact
 signatures of EIP-2098. Blob layout: 4 bytes tag, 2 bytes payload length, 64-byte signatures.
 */
module Eip2098 {
  import opened Wrappers
  import opened Bytes

  /** The order of the group of secp256k1 (section 2.4.1 of SEC 2). */
  const N: nat := 0xFFFFFFFF_FFFFFFFF_FFFFFFFF_FFFFFFFE_BAAEDCE6_AF48A03B_BFD25E8C_D0364141
  const HALF_N: nat := N / 2
  const BIT_255: nat := 0x80000000_00000000_00000000_00000000_00000000_00000000_00000000_00000000
  const BIT_248: nat := 0x01000000_00000000_00000000_00000000_00000000_00000000_00000000_00000000
  const HEADER_LEN := 6
  const SIG_SIZE := 64

  /** The order is 2^256 less a number of 129 bits. */
  lemma {:induction false} OrderIsBelowPowerOfTwo()
    ensures N + 0x1_45512319_50B75FC4_402DA173_2FC9BEBF == 2 * BIT_255
    ensures 2 * BIT_255 == Base(32) && HALF_N + HALF_N + 1 == N
  {
    BaseLiterals();
  }

  type Word = w: seq<byte> | |w| == 32 witness Zeros(32)

  function Abs(x: int): nat {
    if x < 0 then -x else x
  }

  // ---- One S word ----

  lemma {:induction false} BaseLiterals()
    ensures Base(32) == 2 * BIT_255 && Base(31) == BIT_248
  {
    assert Base(1) == 256 && Base(2) == 0x1_0000 && Base(3) == 0x100_0000 && Base(4) == 0x1_0000_0000;
    BaseSum(4, 4);
    assert Base(8) == 0x1_00000000_00000000;
    BaseSum(8, 8);
    assert Base(16) == 0x1_00000000_00000000_00000000_00000000;
    BaseSum(16, 16);
  }

  /** The 32-byte spelling of `n`. */
  function ToWord(n: nat): (w: Word)
    requires n < 2 * BIT_255
    ensures Number(w) == n
  {
    BaseLiterals();
    DigitsFit(n, 32);
    NumberZeros(32 - |Digits(n)|);
    NumberConcat(Zeros(32 - |Digits(n)|), Digits(n));
    Zeros(32 - |Digits(n)|) + Digits(n)
  }

  function SetTopBit(w: Word): Word {
    w[0 := if w[0] < 128 then w[0] + 128 else w[0]]
  }

  /** What the loop does to one S word. */
  function ConvertWord(w: Word): Word {
    WordBound(w);
    if Number(w) > HALF_N then SetTopBit(ToWord(Abs(N - Number(w)))) else w
  }

  lemma {:induction false} WordBound(w: Word)
    ensures Number(w) < 2 * BIT_255
  {
    NumberBound(w);
    BaseLiterals();
  }

  /** The top byte of a word weighs 2^248. */
  lemma {:induction false} TopByte(w: Word)
    ensures Number(w) == w[0] * BIT_248 + Number(w[1..])
    ensures Number(w[1..]) < BIT_248
  {
    NumberConcat(w[..1], w[1..]);
    assert w[..1] + w[1..] == w && w[..1] == [w[0]];
    assert [w[0]][..0] == [];
    assert Number([w[0]]) == w[0];
    NumberBound(w[1..]);
    BaseLiterals();
  }

  /** The compact S word of EIP-2098: `yParity` in bit 255, `s` below it. */
  function Compact(yParity: nat, s: nat): Word
    requires yParity < 2 && s < BIT_255
  {
    ToWord(yParity * BIT_255 + s)
  }

  /** Reading a compact S word, as EIP-2098 specifies. */
  function DecodeCompact(w: Word): (r: (nat, nat)) {
    (Number(w) / BIT_255, Number(w) % BIT_255)
  }

  /** The aggregator's S for a signature: flipped when the recovery id was 1. */
  function Normalised(yParity: nat, s: nat): int {
    if yParity == 0 then s else N - s
  }

  lemma {:induction false} SetTopBitAdds(w: Word)
    requires Number(w) < BIT_255
    ensures Number(SetTopBit(w)) == BIT_255 + Number(w)
  {
    TopByte(w);
    assert w[0] < 128;
    var high: Word := w[0 := w[0] + 128];
    TopByte(high);
    assert high[1..] == w[1..];
    assert high == SetTopBit(w);
  }

  /** What a converted word reads as, for every 32-byte word. */
  lemma {:induction false} ConvertedWordReads(w: Word)
    ensures DecodeCompact(ConvertWord(w)) ==
            if Number(w) > HALF_N then (1, Abs(N - Number(w))) else (0, Number(w))
  {
    WordBound(w);
    if Number(w) > HALF_N {
      SetTopBitAdds(ToWord(Abs(N - Number(w))));
    }
  }

  lemma {:induction false} EvenWordInversion(s: nat)
    requires 1 <= s <= HALF_N
    ensures ConvertWord(ToWord(s)) == ToWord(s) == Compact(0, s)
  {
  }

  lemma {:induction false} OddWordInversion(s: nat)
    requires 1 <= s <= HALF_N
    ensures ConvertWord(ToWord(N - s)) == Compact(1, s)
  {
    var w := ToWord(N - s);
    assert Number(w) == N - s > HALF_N && Abs(N - Number(w)) == s;
    assert ConvertWord(w) == SetTopBit(ToWord(s));
    SetTopBitAdds(ToWord(s));
    NumberInjective(SetTopBit(ToWord(s)), Compact(1, s));
  }

  lemma {:induction false} CompactReads(yParity: nat, s: nat)
    requires yParity < 2 && s < BIT_255
    ensures DecodeCompact(Compact(yParity, s)) == (yParity, s)
  {
  }

  /** The conversion recovers every signature the aggregator normalised, as the compact word of the standard. */
  lemma {:induction false} WordInversion(yParity: nat, s: nat)
    requires yParity < 2 && 1 <= s <= HALF_N
    ensures var w := ToWord(Normalised(yParity, s));
            ConvertWord(w) == Compact(yParity, s) && DecodeCompact(ConvertWord(w)) == (yParity, s)
  {
    CompactReads(yParity, s);
    if yParity == 0 {
      EvenWordInversion(s);
    } else {
      OddWordInversion(s);
    }
  }

  /** Normalising what a converted word reads as gives the word back exactly for words up to the group order. */
  lemma {:induction false} WordRoundTripIff(w: Word)
    ensures var (yParity, s) := DecodeCompact(ConvertWord(w));
            Normalised(yParity, s) == Number(w) <==> Number(w) <= N
  {
    ConvertedWordReads(w);
  }

  // ---- Whole blobs ----

  function PayloadLen(blob: seq<byte>): nat
    requires |blob| >= HEADER_LEN
  {
    Number(blob[4..6])
  }

  /** Blobs handed back as they are. */
  predicate PassesThrough(blob: seq<byte>) {
    |blob| < HEADER_LEN || PayloadLen(blob) == 0 || |blob| < HEADER_LEN + PayloadLen(blob)
  }

  predicate Malformed(blob: seq<byte>) {
    !PassesThrough(blob) && PayloadLen(blob) % SIG_SIZE != 0
  }

  predicate WellFormed(blob: seq<byte>) {
    !PassesThrough(blob) && PayloadLen(blob) % SIG_SIZE == 0
  }

  function SigCount(blob: seq<byte>): nat
    requires WellFormed(blob)
  {
    PayloadLen(blob) / SIG_SIZE
  }

  function SOffset(i: nat): nat {
    HEADER_LEN + i * SIG_SIZE + 32
  }

  function SWord(b: seq<byte>, i: nat): Word
    requires SOffset(i) + 32 <= |b|
  {
    b[SOffset(i)..SOffset(i) + 32]
  }

  function Splice(b: seq<byte>, off: nat, w: seq<byte>): seq<byte>
    requires off + |w| <= |b|
  {
    b[..off] + w + b[off + |w|..]
  }

  /** The blob after `f` rewrote the first `n` S words in place. */
  function RewriteFirst(b: seq<byte>, n: nat, f: Word -> Word): (r: seq<byte>)
    requires n > 0 ==> SOffset(n - 1) + 32 <= |b|
    ensures |r| == |b|
  {
    if n == 0 then b
    else
      var b' := RewriteFirst(b, n - 1, f);
      Splice(b', SOffset(n - 1), f(SWord(b', n - 1)))
  }

  /** The blob's text after the conversion, or the payload length that is no multiple of a signature's. */
  function ConversionOf(blob: seq<byte>): Result<seq<byte>, nat> {
    if PassesThrough(blob) then Ok(blob)
    else if Malformed(blob) then Err(PayloadLen(blob))
    else Ok(Converted(blob))
  }

  function Converted(blob: seq<byte>): seq<byte>
    requires WellFormed(blob)
  {
    RewriteFirst(blob, SigCount(blob), ConvertWord)
  }

  /** Byte `k` belongs to one of the first `n` S words. */
  predicate InSWord(k: nat, n: nat) {
    exists i: nat :: i < n && SOffset(i) <= k < SOffset(i) + 32
  }

  lemma {:induction false} SpliceAt(b: seq<byte>, off: nat, w: seq<byte>, k: nat)
    requires off + |w| <= |b| && k < |b|
    ensures |Splice(b, off, w)| == |b|
    ensures Splice(b, off, w)[k] == if off <= k < off + |w| then w[k - off] else b[k]
  {
  }

  lemma {:induction false} SWordOfSplice(b: seq<byte>, n: nat, w: Word, i: nat)
    requires i <= n && SOffset(n) + 32 <= |b|
    ensures SWord(Splice(b, SOffset(n), w), i) == if i == n then w else SWord(b, i)
  {
    var r := Splice(b, SOffset(n), w);
    assert |r| == |b|;
    forall k | 0 <= k < 32
      ensures SWord(r, i)[k] == if i == n then w[k] else SWord(b, i)[k]
    {
      SpliceAt(b, SOffset(n), w, SOffset(i) + k);
    }
  }

  lemma {:induction false} UntouchedBytes(b: seq<byte>, n: nat, f: Word -> Word, k: nat)
    requires n > 0 ==> SOffset(n - 1) + 32 <= |b|
    requires k < |b| && !InSWord(k, n)
    ensures RewriteFirst(b, n, f)[k] == b[k]
  {
    if n > 0 {
      forall i: nat | i < n - 1 ensures !(SOffset(i) <= k < SOffset(i) + 32) {
        assert i < n;
      }
      UntouchedBytes(b, n - 1, f, k);
      var b' := RewriteFirst(b, n - 1, f);
      SpliceAt(b', SOffset(n - 1), f(SWord(b', n - 1)), k);
    }
  }

  lemma {:induction false} UntouchedSWord(b: seq<byte>, n: nat, f: Word -> Word)
    requires SOffset(n) + 32 <= |b|
    ensures SWord(RewriteFirst(b, n, f), n) == SWord(b, n)
  {
    forall k | 0 <= k < 32 ensures SWord(RewriteFirst(b, n, f), n)[k] == SWord(b, n)[k] {
      UntouchedBytes(b, n, f, SOffset(n) + k);
    }
  }

  lemma {:induction false} RewrittenSWord(b: seq<byte>, n: nat, f: Word -> Word, i: nat)
    requires i < n && SOffset(n - 1) + 32 <= |b|
    ensures SWord(RewriteFirst(b, n, f), i) == f(SWord(b, i))
  {
    var b' := RewriteFirst(b, n - 1, f);
    SWordOfSplice(b', n - 1, f(SWord(b', n - 1)), i);
    if i == n - 1 {
      UntouchedSWord(b, i, f);
    } else {
      RewrittenSWord(b, n - 1, f, i);
    }
  }

  /**
   Inversion for whole blobs: when every S word is the normalisation of some `(yParity, s)`, each
   converted word is the standard's compact word of that pair and reads back as it; header, R words,
   trailing bytes and the length are unchanged.
   */
  lemma {:induction false} BlobInversion(blob: seq<byte>, sigs: seq<(nat, nat)>)
    requires WellFormed(blob) && |sigs| == SigCount(blob)
    requires forall i :: 0 <= i < |sigs| ==> sigs[i].0 < 2 && 1 <= sigs[i].1 <= HALF_N
    requires forall i :: 0 <= i < |sigs| ==> SWord(blob, i) == ToWord(Normalised(sigs[i].0, sigs[i].1))
    ensures var out := Converted(blob);
            && |out| == |blob|
            && (forall k: nat | k < |blob| && !InSWord(k, |sigs|) :: out[k] == blob[k])
            && (forall i: nat | i < |sigs| ::
                  && SWord(out, i) == Compact(sigs[i].0, sigs[i].1)
                  && DecodeCompact(SWord(out, i)) == sigs[i])
  {
    forall k: nat | k < |blob| && !InSWord(k, |sigs|) ensures Converted(blob)[k] == blob[k] {
      UntouchedBytes(blob, |sigs|, ConvertWord, k);
    }
    forall i: nat | i < |sigs|
      ensures SWord(Converted(blob), i) == Compact(sigs[i].0, sigs[i].1)
      ensures DecodeCompact(SWord(Converted(blob), i)) == sigs[i]
    {
      RewrittenSWord(blob, |sigs|, ConvertWord, i);
      WordInversion(sigs[i].0, sigs[i].1);
    }
  }

  // ---- Blobs written out ----

  /** Signatures one after another: an R word, then an S word. */
  function Spelled(rs: seq<Word>, ss: seq<Word>): (r: seq<byte>)
    requires |rs| == |ss|
    ensures |r| == 64 * |rs|
  {
    if rs == [] then [] else Spelled(rs[..|rs| - 1], ss[..|ss| - 1]) + rs[|rs| - 1] + ss[|ss| - 1]
  }

  /** The S words with the first `n` mapped. */
  function MapFirst(ss: seq<Word>, n: nat, f: Word -> Word): (r: seq<Word>)
    requires n <= |ss|
    ensures |r| == |ss| && forall i :: 0 <= i < |ss| ==> r[i] == if i < n then f(ss[i]) else ss[i]
  {
    seq(|ss|, i requires 0 <= i < |ss| => if i < n then f(ss[i]) else ss[i])
  }

  /** Slices and replacements deep inside a concatenation are those of the part they lie in. */
  lemma {:induction false} SpliceInside(a: seq<byte>, b: seq<byte>, c: seq<byte>, off: nat, w: seq<byte>)
    requires off + |w| <= |b|
    ensures |a + b + c| == |a| + |b| + |c|
    ensures (a + b + c)[|a| + off..|a| + off + |w|] == b[off..off + |w|]
    ensures Splice(a + b + c, |a| + off, w) == a + Splice(b, off, w) + c
  {
  }

  lemma {:induction false} SpliceFront(a: seq<byte>, b: seq<byte>, c: seq<byte>, off: nat, w: seq<byte>)
    requires off + |w| <= |a|
    ensures (a + b + c)[off..off + |w|] == a[off..off + |w|]
    ensures Splice(a + b + c, off, w) == Splice(a, off, w) + b + c
  {
  }

  lemma {:induction false} SpliceLast(a: seq<byte>, b: seq<byte>, w: seq<byte>)
    requires |b| == |w|
    ensures Splice(a + b, |a|, w) == a + w && (a + b)[|a|..|a| + |b|] == b
  {
  }

  lemma {:induction false} SpelledAt(rs: seq<Word>, ss: seq<Word>, i: nat, w: Word)
    requires |rs| == |ss| && i < |ss|
    ensures Spelled(rs, ss)[64 * i + 32..64 * i + 64] == ss[i]
    ensures Splice(Spelled(rs, ss), 64 * i + 32, w) == Spelled(rs, ss[i := w])
  {
    var n := |ss| - 1;
    var front, r, s := Spelled(rs[..n], ss[..n]), rs[n], ss[n];
    if i == n {
      assert ss[i := w][..n] == ss[..n];
      SpliceLast(front + r, s, w);
    } else {
      SpelledAt(rs[..n], ss[..n], i, w);
      assert ss[i := w][..n] == ss[..n][i := w];
      SpliceFront(front, r, s, 64 * i + 32, w);
    }
  }

  /** A whole blob: six bytes of header, signatures, and anything after them. */
  function Text(head: seq<byte>, body: seq<byte>, rest: seq<byte>): (t: seq<byte>)
    ensures |t| == |head| + |body| + |rest|
  {
    head + body + rest
  }

  lemma {:induction false} RewriteOneSpelled(
      head: seq<byte>, rs: seq<Word>, ss: seq<Word>, rest: seq<byte>, i: nat, f: Word -> Word)
    requires |head| == HEADER_LEN && |rs| == |ss| && i < |ss|
    ensures SOffset(i) + 32 <= |Text(head, Spelled(rs, ss), rest)|
    ensures var t := Text(head, Spelled(rs, ss), rest);
            Splice(t, SOffset(i), f(SWord(t, i))) == Text(head, Spelled(rs, ss[i := f(ss[i])]), rest)
  {
    SpelledAt(rs, ss, i, f(ss[i]));
    SpliceInside(head, Spelled(rs, ss), rest, 64 * i + 32, f(ss[i]));
    assert SWord(Text(head, Spelled(rs, ss), rest), i) == ss[i];
  }

  lemma {:induction false} MapFirstStep(ss: seq<Word>, n: nat, f: Word -> Word)
    requires 0 < n <= |ss|
    ensures MapFirst(ss, n - 1, f)[n - 1] == ss[n - 1]
    ensures MapFirst(ss, n - 1, f)[n - 1 := f(ss[n - 1])] == MapFirst(ss, n, f)
  {
  }

  lemma {:induction false} RewriteNext(b: seq<byte>, n: nat, f: Word -> Word, before: seq<byte>)
    requires n > 0 && SOffset(n - 1) + 32 <= |b| && before == RewriteFirst(b, n - 1, f)
    ensures RewriteFirst(b, n, f) == Splice(before, SOffset(n - 1), f(SWord(before, n - 1)))
  {
  }

  lemma {:induction false} RewriteSpelled(
      head: seq<byte>, rs: seq<Word>, ss: seq<Word>, rest: seq<byte>, n: nat, f: Word -> Word)
    requires |head| == HEADER_LEN && |rs| == |ss| && n <= |ss|
    ensures n > 0 ==> SOffset(n - 1) + 32 <= |Text(head, Spelled(rs, ss), rest)|
    ensures RewriteFirst(Text(head, Spelled(rs, ss), rest), n, f) == Text(head, Spelled(rs, MapFirst(ss, n, f)), rest)
  {
    if n == 0 {
      assert MapFirst(ss, 0, f) == ss;
    } else {
      var before := MapFirst(ss, n - 1, f);
      MapFirstStep(ss, n, f);
      RewriteOneSpelled(head, rs, before, rest, n - 1, f);
      RewriteSpelled(head, rs, ss, rest, n - 1, f);
      RewriteNext(Text(head, Spelled(rs, ss), rest), n, f, Text(head, Spelled(rs, before), rest));
    }
  }

  lemma {:induction false} HeaderReads(tag: seq<byte>, hi: byte, lo: byte, rest: seq<byte>)
    requires |tag| == 4
    ensures PayloadLen(tag + [hi, lo] + rest) == 256 * hi + lo
  {
    assert (tag + [hi, lo] + rest)[4..6] == [hi, lo] == [hi] + [lo];
    NumberConcat([hi], [lo]);
    assert [hi][..0] == [] && [lo][..0] == [];
    assert Number([hi]) == hi && Number([lo]) == lo && Base(1) == 256;
  }

  lemma {:induction false} SpelledBlobIsWellFormed(
      tag: seq<byte>, hi: byte, lo: byte, body: seq<byte>, rest: seq<byte>, n: nat)
    requires |tag| == 4 && 1 <= n && 256 * hi + lo == 64 * n == |body|
    ensures WellFormed(Text(tag + [hi, lo], body, rest)) && SigCount(Text(tag + [hi, lo], body, rest)) == n
  {
    HeaderReads(tag, hi, lo, body + rest);
    assert tag + [hi, lo] + (body + rest) == Text(tag + [hi, lo], body, rest);
  }

  lemma {:induction false} SpelledBlobIsConverted(
      tag: seq<byte>, hi: byte, lo: byte, rs: seq<Word>, ss: seq<Word>, rest: seq<byte>)
    requires |tag| == 4 && |rs| == |ss| && 1 <= |ss| && 256 * hi + lo == 64 * |ss|
    ensures ConversionOf(Text(tag + [hi, lo], Spelled(rs, ss), rest)) ==
            Ok(Text(tag + [hi, lo], Spelled(rs, MapFirst(ss, |ss|, ConvertWord)), rest))
  {
    var head := tag + [hi, lo];
    SpelledBlobIsWellFormed(tag, hi, lo, Spelled(rs, ss), rest, |ss|);
    RewriteSpelled(head, rs, ss, rest, |ss|, ConvertWord);
  }

  lemma {:induction false} WordInversionByNumber(w: Word, c: Word, yParity: nat, s: nat)
    requires yParity < 2 && 1 <= s <= HALF_N
    requires Number(w) == (if yParity == 0 then s else N - s) && Number(c) == yParity * BIT_255 + s
    ensures ConvertWord(w) == c
  {
    WordInversion(yParity, s);
    NumberInjective(w, ToWord(Normalised(yParity, s)));
    NumberInjective(c, Compact(yParity, s));
  }

  /**
   The inversion on the blob's own text. The payload length is spelled in two bytes, high byte first. R words
   and S words normalised from `sigs` go in, with anything behind them; the same text with compact S words
   comes out.
   */
  lemma {:induction false} TextInversion(
      tag: seq<byte>, hi: byte, lo: byte, rs: seq<Word>, normalised: seq<Word>, compact: seq<Word>, rest: seq<byte>,
      sigs: seq<(nat, nat)>)
    requires |tag| == 4 && |rs| == |normalised| == |compact| == |sigs| && 1 <= |sigs| && 256 * hi + lo == 64 * |sigs|
    requires forall i :: 0 <= i < |sigs| ==> sigs[i].0 < 2 && 1 <= sigs[i].1 <= HALF_N
    requires forall i :: 0 <= i < |sigs| ==> Number(normalised[i]) == if sigs[i].0 == 0 then sigs[i].1 else N - sigs[i].1
    requires forall i :: 0 <= i < |sigs| ==> Number(compact[i]) == sigs[i].0 * BIT_255 + sigs[i].1
    ensures ConversionOf(tag + [hi, lo] + Spelled(rs, normalised) + rest) ==
            Ok(tag + [hi, lo] + Spelled(rs, compact) + rest)
  {
    SpelledBlobIsConverted(tag, hi, lo, rs, normalised, rest);
    forall i: nat | i < |sigs| ensures MapFirst(normalised, |sigs|, ConvertWord)[i] == compact[i] {
      WordInversionByNumber(normalised[i], compact[i], sigs[i].0, sigs[i].1);
    }
    assert MapFirst(normalised, |sigs|, ConvertWord) == compact;
  }

  /** Every other blob: too short, empty or cut off, it comes back as it is; of uneven length, it is refused. */
  lemma {:induction false} OtherBlobs(tag: seq<byte>, hi: byte, lo: byte, rest: seq<byte>, short: seq<byte>)
    requires |tag| == 4 && |short| < 6
    ensures ConversionOf(short) == Ok(short)
    ensures var blob, len := tag + [hi, lo] + rest, 256 * hi + lo;
            && (len == 0 || |rest| < len ==> ConversionOf(blob) == Ok(blob))
            && (0 < len <= |rest| && len % 64 != 0 ==> ConversionOf(blob) == Err(len))
  {
    HeaderReads(tag, hi, lo, rest);
  }

  // ---- The byte loop ----

  lemma {:induction false} SpliceExtend(b: seq<byte>, off: nat, w: seq<byte>, x: byte)
    requires off + |w| < |b|
    ensures |Splice(b, off, w)| == |b|
    ensures Splice(b, off, w)[off + |w| := x] == Splice(b, off, w + [x])
  {
  }

  /** `clear(a[off:off+n])`. */
  method Clear(a: array<byte>, off: nat, n: nat)
    requires off + n <= a.Length
    modifies a
    ensures a[..] == Splice(old(a[..]), off, Zeros(n))
  {
    ghost var before := a[..];
    for j := 0 to n
      invariant a[..] == Splice(before, off, Zeros(j))
    {
      SpliceExtend(before, off, Zeros(j), 0);
      assert Zeros(j) + [0] == Zeros(j + 1);
      a[off + j] := 0;
    }
  }

  /** `copy(a[off:], src)`. */
  method CopyAt(a: array<byte>, off: nat, src: seq<byte>)
    requires off + |src| <= a.Length
    modifies a
    ensures a[..] == Splice(old(a[..]), off, src)
  {
    ghost var before := a[..];
    for j := 0 to |src|
      invariant a[..] == Splice(before, off, src[..j])
    {
      SpliceExtend(before, off, src[..j], src[j]);
      assert src[..j] + [src[j]] == src[..j + 1];
      a[off + j] := src[j];
    }
    assert src[..|src|] == src;
  }

  lemma {:induction false} SpliceInto(b: seq<byte>, off: nat, digits: seq<byte>)
    requires off + 32 <= |b| && |digits| <= 32
    ensures |Splice(b, off, Zeros(32))| == |b|
    ensures Splice(Splice(b, off, Zeros(32)), off + 32 - |digits|, digits) == Splice(b, off, Zeros(32 - |digits|) + digits)
  {
  }

  lemma {:induction false} SpliceUpdate(b: seq<byte>, off: nat, w: Word, top: byte)
    requires off + 32 <= |b|
    ensures |Splice(b, off, w)| == |b| && Splice(b, off, w)[off] == w[0]
    ensures Splice(b, off, w)[off := top] == Splice(b, off, w[0 := top])
  {
  }

  /** Writes the 32-byte spelling of `n`. */
  method StorePadded(out: array<byte>, off: nat, n: nat)
    requires off + 32 <= out.Length && n < 2 * BIT_255
    modifies out
    ensures out[..] == Splice(old(out[..]), off, ToWord(n))
  {
    ghost var before := out[..];
    var padded := Digits(n);
    BaseLiterals();
    DigitsFit(n, 32);
    Clear(out, off, 32);
    CopyAt(out, off + 32 - |padded|, padded);
    SpliceInto(before, off, padded);
  }

  /** `sBytes[0] |= 0x80`. */
  method RaiseTopBit(out: array<byte>, off: nat, ghost before: seq<byte>, ghost w: Word)
    requires off + 32 <= out.Length == |before| && out[..] == Splice(before, off, w)
    modifies out
    ensures out[..] == Splice(before, off, SetTopBit(w))
  {
    SpliceUpdate(before, off, w, SetTopBit(w)[0]);
    assert out[off] == out[..][off] == w[0];
    out[off] := if out[off] < 128 then out[off] + 128 else out[off];
  }

  lemma {:induction false} SpliceSame(b: seq<byte>, off: nat)
    requires off + 32 <= |b|
    ensures Splice(b, off, b[off..off + 32]) == b
  {
  }

  /** One round of the loop: rewrites the S word of signature `i` in place. */
  method RewriteSWord(out: array<byte>, i: nat)
    requires SOffset(i) + 32 <= out.Length
    modifies out
    ensures out[..] == Splice(old(out[..]), SOffset(i), ConvertWord(SWord(old(out[..]), i)))
  {
    var sOff := HEADER_LEN + i * SIG_SIZE + 32;
    var s := Number(out[sOff..sOff + 32]);
    assert out[sOff..sOff + 32] == SWord(out[..], i);
    WordBound(SWord(out[..], i));
    if s > HALF_N {
      ghost var before := out[..];
      StorePadded(out, sOff, Abs(N - s));
      RaiseTopBit(out, sOff, before, ToWord(Abs(N - s)));
    } else {
      SpliceSame(out[..], sOff);
    }
  }

  /** The loop over the first `n` signatures. */
  method RewriteSWords(out: array<byte>, n: nat)
    requires n > 0 ==> SOffset(n - 1) + 32 <= out.Length
    modifies out
    ensures out[..] == RewriteFirst(old(out[..]), n, ConvertWord)
  {
    ghost var before := out[..];
    for i := 0 to n
      invariant out[..] == RewriteFirst(before, i, ConvertWord)
    {
      assert SOffset(i) <= SOffset(n - 1);
      RewriteSWord(out, i);
    }
  }

  method ConvertVerifierBlob(blob: array<byte>) returns (r: Result<array<byte>, nat>)
    ensures match ConversionOf(blob[..])
            case Ok(text) => r.Ok? && r.value[..] == text
            case Err(len) => r == Err(len)
    ensures r.Err? <==> Malformed(blob[..])
    ensures r.Err? ==> r.error == PayloadLen(blob[..])
    ensures PassesThrough(blob[..]) ==> r == Ok(blob)
    ensures WellFormed(blob[..]) ==> r.Ok? && fresh(r.value) && r.value[..] == Converted(blob[..])
  {
    if blob.Length < HEADER_LEN {
      return Ok(blob);
    }
    var sigPayloadLen := Number(blob[4..6]);
    assert blob[..][4..6] == blob[4..6];
    if sigPayloadLen == 0 || blob.Length < HEADER_LEN + sigPayloadLen {
      return Ok(blob);
    }
    if sigPayloadLen % SIG_SIZE != 0 {
      return Err(sigPayloadLen);
    }
    var out := new byte[blob.Length](_ => 0);
    CopyAt(out, 0, blob[..]);
    assert out[..] == blob[..];

    var sigCount := sigPayloadLen / SIG_SIZE;
    RewriteSWords(out, sigCount);
    return Ok(out);
  }
}

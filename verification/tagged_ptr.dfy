/** `TaggedPtr` and `AtomicTaggedPtr` of other/lock-free_mpsc_queue_v3.0.hpp:
    a pointer and a version tag packed into one 64-bit word, the pointer in
    the low 48 bits (user-space addresses fit there) and the tag shifted
    into the high 16. Shifting a `size_t` tag left by 48 drops all but its
    low 16 bits, so the stored tag counts modulo 2^16.

    Words are modelled as naturals below 2^64. Because the pointer fits in
    48 bits, `ptr | (tag << 48)` equals `ptr + (tag << 48)` (`OrIsAdd`
    checks this on 64-bit vectors), and `x & (2^48 - 1)` and `x >> 48` are
    `x % 2^48` and `x / 2^48`. */
module TaggedPtr {
  /** 2^48: addresses are below it. */
  const Span: nat := 0x1_0000_0000_0000
  /** 2^16: stored tags are below it. */
  const TagSpan: nat := 0x1_0000
  /** 2^64: the word size. */
  const Word: nat := 0x1_0000_0000_0000_0000

  datatype TaggedPtr = TaggedPtr(ptr: nat, tag: nat)

  /** A pointer that fits in 48 bits with a `size_t` tag. */
  predicate Fits(v: TaggedPtr) {
    v.ptr < Span && v.tag < Word
  }

  /** `encode(v)`: `ptr | (tag << 48)` on 64 bits. */
  function Encode(v: TaggedPtr): (x: nat)
    requires Fits(v)
    ensures x < Word
    ensures x % Span == v.ptr
  {
    v.ptr + (v.tag * Span) % Word
  }

  /** `decode(x)`: the low 48 bits and the high 16. */
  function Decode(x: nat): (v: TaggedPtr)
    requires x < Word
    ensures Fits(v) && v.tag < TagSpan
  {
    TaggedPtr(x % Span, x / Span)
  }

  /** The bitwise or and the sum agree when the pointer fits in 48 bits. */
  lemma OrIsAdd(p: bv64, t: bv64)
    requires p <= 0xFFFF_FFFF_FFFF
    ensures p | (t << 48) == p + (t << 48)
  {
  }

  /** Every word is the encoding of its decoding. */
  lemma EncodeDecode(x: nat)
    requires x < Word
    ensures Encode(Decode(x)) == x
  {
  }

  /** Decoding an encoding gives the pointer back and the tag modulo 2^16. */
  lemma DecodeEncode(v: TaggedPtr)
    requires Fits(v)
    ensures Decode(Encode(v)) == TaggedPtr(v.ptr, v.tag % TagSpan)
  {
  }

  /** Incrementing the largest tag wraps it to 0. */
  lemma TagWraps(p: nat)
    requires p < Span
    ensures Decode(Encode(TaggedPtr(p, TagSpan - 1 + 1))).tag == 0
  {
    DecodeEncode(TaggedPtr(p, TagSpan));
  }

  /** `AtomicTaggedPtr`: the packed word. */
  datatype Atomic = Atomic(raw: nat)

  /** `AtomicTaggedPtr(init)`. */
  function Init(v: TaggedPtr): (a: Atomic)
    requires Fits(v)
    ensures a.raw < Word && Load(a) == TaggedPtr(v.ptr, v.tag % TagSpan)
  {
    DecodeEncode(v);
    Atomic(Encode(v))
  }

  /** `load()`. */
  function Load(a: Atomic): (v: TaggedPtr)
    requires a.raw < Word
    ensures Fits(v) && v.tag < TagSpan && Encode(v) == a.raw
  {
    EncodeDecode(a.raw);
    Decode(a.raw)
  }

  /** `compare_exchange_strong(expected, desired)`: succeeds exactly when
      the word equals `expected`'s encoding, and then stores `desired`'s;
      on failure `expected` becomes the decoded current word. Gives the
      atomic, the success flag and `expected` afterwards. */
  function CompareExchangeStrong(a: Atomic, expected: TaggedPtr, desired: TaggedPtr): (r: (Atomic, bool, TaggedPtr))
    requires a.raw < Word && Fits(expected) && Fits(desired)
    ensures r.1 <==> Load(a) == TaggedPtr(expected.ptr, expected.tag % TagSpan)
    ensures r.1 ==> r.0 == Atomic(Encode(desired)) && r.2 == expected
    ensures !r.1 ==> r.0 == a && r.2 == Load(a)
    ensures r.0.raw < Word
  {
    EncodeDecode(a.raw);
    DecodeEncode(expected);
    if a.raw == Encode(expected) then (Atomic(Encode(desired)), true, expected)
    else (a, false, Decode(a.raw))
  }

  /** An exchange against the value just loaded succeeds. */
  lemma CasAfterLoad(a: Atomic, desired: TaggedPtr)
    requires a.raw < Word && Fits(desired)
    ensures CompareExchangeStrong(a, Load(a), desired).1
  {
  }

  /** The version tag defeats ABA: the same pointer with a stale tag
      fails the exchange and leaves the word alone. */
  lemma StaleTagFails(a: Atomic, expected: TaggedPtr, desired: TaggedPtr)
    requires a.raw < Word && Fits(expected) && Fits(desired)
    requires expected.ptr == Load(a).ptr && expected.tag < TagSpan && expected.tag != Load(a).tag
    ensures CompareExchangeStrong(a, expected, desired) == (a, false, Load(a))
  {
  }
}

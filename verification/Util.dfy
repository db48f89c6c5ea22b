/**
 Bytes, big-endian integers, and the bounds-checked reader and writer every
 message is built from (common/Util.cpp).

 The specification treats a payload as a list of typed fields.  The writer and
 the reader below are the imperative classes of the program, each tied to that
 list by a ghost history of the fields put or taken so far.
 */
module Util {

  newtype byte = x: int | 0 <= x < 0x100

  type Bytes = seq<byte>
  type u8 = x: nat | x < 0x100
  type u16 = x: nat | x < 0x1_0000
  type u32 = x: nat | x < 0x1_0000_0000
  type u64 = x: nat | x < 0x1_0000_0000_0000_0000

  // A length-prefixed byte string: the length must fit the four-byte prefix.
  type Blob = b: Bytes | |b| < 0x1_0000_0000

  type Hash256 = h: Bytes | |h| == 32 witness seq(32, _ => 0)
  // SHA-256, left uninterpreted: any function from byte strings to digests.
  type Sha256 = Bytes -> Hash256

  function Zeros(n: nat): Bytes { seq(n, _ => 0) }

  datatype Option<+T> = None | Some(value: T) {
    predicate IsFailure() { None? }
    function PropagateFailure<U>(): Option<U> requires None? { None }
    function Extract(): T requires Some? { value }
  }

  lemma Assoc<T>(a: seq<T>, b: seq<T>, c: seq<T>)
    ensures a + b + c == a + (b + c)
  {
  }

  // ---------------------------------------------------------------- integers

  lemma MulMonotone(a: int, b: int, c: nat)
    requires a <= b
    ensures a * c <= b * c
  {
  }

  lemma DivUnique(x: int, d: int, q: int, r: int)
    requires d > 0 && 0 <= r < d && x == q * d + r
    ensures x / d == q && x % d == r
  {
    var e := x / d - q;
    assert e * d == r - x % d;
    if e >= 1 { MulMonotone(1, e, d); }
    if e <= -1 { MulMonotone(e, -1, d); }
  }

  lemma DivDiv(x: nat, a: nat, b: nat)
    requires a > 0 && b > 0
    ensures a * b > 0 && x / a / b == x / (a * b)
  {
    var q, r := x / a, x % a;
    var q', r' := q / b, q % b;
    MulMonotone(r', b - 1, a);
    assert (b - 1) * a == a * b - a;
    assert (q' * b + r') * a == q' * (a * b) + r' * a by {
      assert q' * b * a == q' * (b * a);
    }
    DivUnique(x, a * b, q', r' * a + r);
  }

  function Pow256(n: nat): nat {
    if n == 0 then 1 else 256 * Pow256(n - 1)
  }

  // The number a byte string denotes, most significant byte first.
  function Value(b: Bytes): nat {
    if b == [] then 0 else Value(b[..|b| - 1]) * 256 + b[|b| - 1] as nat
  }

  function BigEndian(width: nat, v: nat): Bytes {
    if width == 0 then [] else BigEndian(width - 1, v / 256) + [(v % 256) as byte]
  }

  lemma {:induction false} ValueOfBigEndian(width: nat, v: nat)
    requires v < Pow256(width)
    ensures |BigEndian(width, v)| == width
    ensures Value(BigEndian(width, v)) == v
  {
    if width > 0 {
      ValueOfBigEndian(width - 1, v / 256);
      var b := BigEndian(width, v);
      assert b[..|b| - 1] == BigEndian(width - 1, v / 256);
    }
  }

  lemma {:induction false} BigEndianOfValue(b: Bytes)
    ensures Value(b) < Pow256(|b|)
    ensures BigEndian(|b|, Value(b)) == b
  {
    if b != [] {
      BigEndianOfValue(b[..|b| - 1]);
      assert b == b[..|b| - 1] + [b[|b| - 1]];
    }
  }

  lemma FourBytes(v: u32)
    ensures BigEndian(4, v)
         == [(v / 0x100_0000 % 0x100) as byte, (v / 0x1_0000 % 0x100) as byte,
             (v / 0x100 % 0x100) as byte, (v % 0x100) as byte]
  {
    assert v / 0x100 / 0x100 == v / 0x1_0000 && v / 0x1_0000 / 0x100 == v / 0x100_0000;
    assert BigEndian(1, v / 0x100_0000) == BigEndian(0, 0) + [(v / 0x100_0000 % 0x100) as byte];
    assert BigEndian(2, v / 0x1_0000) == BigEndian(1, v / 0x100_0000) + [(v / 0x1_0000 % 0x100) as byte];
    assert BigEndian(3, v / 0x100) == BigEndian(2, v / 0x1_0000) + [(v / 0x100 % 0x100) as byte];
    assert BigEndian(4, v) == BigEndian(3, v / 0x100) + [(v % 0x100) as byte];
  }

  lemma Pow256Values()
    ensures Pow256(1) == 0x100 && Pow256(2) == 0x1_0000
    ensures Pow256(4) == 0x1_0000_0000 && Pow256(8) == 0x1_0000_0000_0000_0000
  {
    assert Pow256(3) == 0x100_0000 && Pow256(5) == 0x100_0000_0000;
    assert Pow256(6) == 0x1_0000_0000_0000 && Pow256(7) == 0x100_0000_0000_0000;
  }

  // ------------------------------------------------------------------ fields

  datatype Kind = K8 | K16 | K32 | K64 | KBlob | KHash

  datatype Field =
    | F8(v8: u8)
    | F16(v16: u16)
    | F32(v32: u32)
    | F64(v64: u64)
    | FBlob(blob: Blob)
    | FHash(hash: Hash256)
  {
    function Kind(): Kind {
      match this
      case F8(_) => K8
      case F16(_) => K16
      case F32(_) => K32
      case F64(_) => K64
      case FBlob(_) => KBlob
      case FHash(_) => KHash
    }
  }

  // fs are the first |fs| of the fields ks asks for.
  ghost predicate Starts(fs: seq<Field>, ks: seq<Kind>) {
    |fs| <= |ks| && forall i | 0 <= i < |fs| :: fs[i].Kind() == ks[i]
  }

  ghost predicate Fits(fs: seq<Field>, ks: seq<Kind>) {
    |fs| == |ks| && Starts(fs, ks)
  }

  function EncodeField(f: Field): Bytes {
    match f
    case F8(v) => BigEndian(1, v)
    case F16(v) => BigEndian(2, v)
    case F32(v) => BigEndian(4, v)
    case F64(v) => BigEndian(8, v)
    case FBlob(b) => BigEndian(4, |b|) + b
    case FHash(h) => h
  }

  function EncodeFields(fs: seq<Field>): Bytes {
    if fs == [] then [] else EncodeField(fs[0]) + EncodeFields(fs[1..])
  }

  // One field off the front of p, and what is left.
  function ReadField(k: Kind, p: Bytes): (r: Option<(Field, Bytes)>)
    ensures r.Some? ==> r.value.0.Kind() == k
  {
    Pow256Values();
    match k
    case K8 => if |p| < 1 then None else BigEndianOfValue(p[..1]); Some((F8(Value(p[..1])), p[1..]))
    case K16 => if |p| < 2 then None else BigEndianOfValue(p[..2]); Some((F16(Value(p[..2])), p[2..]))
    case K32 => if |p| < 4 then None else BigEndianOfValue(p[..4]); Some((F32(Value(p[..4])), p[4..]))
    case K64 => if |p| < 8 then None else BigEndianOfValue(p[..8]); Some((F64(Value(p[..8])), p[8..]))
    case KBlob =>
      if |p| < 4 then None else
        var n := Value(p[..4]);
        BigEndianOfValue(p[..4]);
        if |p| < 4 + n then None else Some((FBlob(p[4..4 + n]), p[4 + n..]))
    case KHash => if |p| < 32 then None else Some((FHash(p[..32]), p[32..]))
  }

  function DecodeFields(ks: seq<Kind>, p: Bytes): Option<(seq<Field>, Bytes)> {
    if ks == [] then Some(([], p)) else
      var (f, rest) :- ReadField(ks[0], p);
      var (fs, rest') :- DecodeFields(ks[1..], rest);
      Some(([f] + fs, rest'))
  }

  lemma {:induction false} EncodeFieldsAppend(fs: seq<Field>, f: Field)
    ensures EncodeFields(fs + [f]) == EncodeFields(fs) + EncodeField(f)
  {
    if fs == [] {
      assert fs + [f] == [f];
    } else {
      assert (fs + [f])[1..] == fs[1..] + [f];
      EncodeFieldsAppend(fs[1..], f);
    }
  }

  lemma ReadFieldOfEncode(f: Field, rest: Bytes)
    ensures ReadField(f.Kind(), EncodeField(f) + rest) == Some((f, rest))
  {
    if f.FBlob? {
      ReadBlobOfEncode(f.blob, rest);
    } else if f.FHash? {
      assert (f.hash + rest)[..32] == f.hash && (f.hash + rest)[32..] == rest;
    } else {
      ReadNumberOfEncode(f, rest);
    }
  }

  lemma ReadNumberOfEncode(f: Field, rest: Bytes)
    requires !f.FBlob? && !f.FHash?
    ensures ReadField(f.Kind(), EncodeField(f) + rest) == Some((f, rest))
  {
    Pow256Values();
    match f
    case F8(v) => FrontNumber(1, v, rest);
    case F16(v) => FrontNumber(2, v, rest);
    case F32(v) => FrontNumber(4, v, rest);
    case F64(v) => FrontNumber(8, v, rest);
  }

  lemma ReadBlobOfEncode(b: Blob, rest: Bytes)
    ensures ReadField(KBlob, EncodeField(FBlob(b)) + rest) == Some((FBlob(b), rest))
  {
    assert |b| < Pow256(4) by { Pow256Values(); }
    FrontNumber(4, |b|, b + rest);
    var p := BigEndian(4, |b|) + (b + rest);
    assert EncodeField(FBlob(b)) + rest == p;
    assert p[4..4 + |b|] == p[4..][..|b|] && p[4 + |b|..] == p[4..][|b|..];
    assert (b + rest)[..|b|] == b && (b + rest)[|b|..] == rest;
  }

  lemma FrontNumber(width: nat, v: nat, rest: Bytes)
    requires v < Pow256(width)
    ensures var p := BigEndian(width, v) + rest;
            |p| >= width && Value(p[..width]) == v && p[width..] == rest
  {
    ValueOfBigEndian(width, v);
    var p := BigEndian(width, v) + rest;
    assert p[..width] == BigEndian(width, v);
  }

  lemma EncodeOfReadField(k: Kind, p: Bytes)
    requires ReadField(k, p).Some?
    ensures var (f, rest) := ReadField(k, p).value; p == EncodeField(f) + rest
  {
    match k
    case K8 => NumberAtFront(p, 1);
    case K16 => NumberAtFront(p, 2);
    case K32 => NumberAtFront(p, 4);
    case K64 => NumberAtFront(p, 8);
    case KBlob => BlobAtFront(p);
    case KHash => assert p == p[..32] + p[32..];
  }

  lemma BlobAtFront(p: Bytes)
    requires ReadField(KBlob, p).Some?
    ensures var (f, rest) := ReadField(KBlob, p).value; p == EncodeField(f) + rest
  {
    NumberAtFront(p, 4);
    var n := Value(p[..4]);
    assert p[4..] == p[4..4 + n] + p[4 + n..];
    Assoc(BigEndian(4, n), p[4..4 + n], p[4 + n..]);
  }

  lemma NumberAtFront(p: Bytes, width: nat)
    requires width <= |p|
    ensures p == BigEndian(width, Value(p[..width])) + p[width..] && Value(p[..width]) < Pow256(width)
  {
    BigEndianOfValue(p[..width]);
    assert p == p[..width] + p[width..];
  }

  /** Decoding undoes encoding and hands back whatever follows. */
  lemma {:induction false} DecodeOfEncode(ks: seq<Kind>, fs: seq<Field>, rest: Bytes)
    requires Fits(fs, ks)
    ensures DecodeFields(ks, EncodeFields(fs) + rest) == Some((fs, rest))
  {
    if fs == [] {
      assert EncodeFields(fs) + rest == rest;
    } else {
      var tail := EncodeFields(fs[1..]) + rest;
      assert EncodeFields(fs) + rest == EncodeField(fs[0]) + tail;
      ReadFieldOfEncode(fs[0], tail);
      DecodeOfEncode(ks[1..], fs[1..], rest);
      assert [fs[0]] + fs[1..] == fs;
    }
  }

  /** Whatever decodes was the encoding of its fields: there is one encoding per value. */
  lemma {:induction false} EncodeOfDecode(ks: seq<Kind>, p: Bytes)
    requires DecodeFields(ks, p).Some?
    ensures var (fs, rest) := DecodeFields(ks, p).value;
            Fits(fs, ks) && p == EncodeFields(fs) + rest
  {
    if ks != [] {
      var (f, rest) := ReadField(ks[0], p).value;
      EncodeOfReadField(ks[0], p);
      EncodeOfDecode(ks[1..], rest);
      var (fs, rest') := DecodeFields(ks[1..], rest).value;
      assert ([f] + fs)[1..] == fs;
    }
  }

  // No encoding is a proper prefix of another one of the same kinds.
  lemma EncodeIsPrefixFree(ks: seq<Kind>, fs: seq<Field>, gs: seq<Field>, more: Bytes)
    requires Fits(fs, ks) && Fits(gs, ks) && EncodeFields(fs) == EncodeFields(gs) + more
    ensures fs == gs && more == []
  {
    DecodeOfEncode(ks, gs, more);
    DecodeOfEncode(ks, fs, []);
    assert EncodeFields(fs) + [] == EncodeFields(fs);
  }

  /** Every proper prefix of an encoding is refused. */
  lemma {:induction false} ProperPrefixFails(ks: seq<Kind>, fs: seq<Field>, q: Bytes, more: Bytes)
    requires Fits(fs, ks) && EncodeFields(fs) == q + more && more != []
    ensures DecodeFields(ks, q) == None
  {
    if DecodeFields(ks, q).Some? {
      EncodeOfDecode(ks, q);
      var (gs, rest) := DecodeFields(ks, q).value;
      var front := EncodeFields(gs);
      assert front + rest + more == front + (rest + more);
      EncodeIsPrefixFree(ks, fs, gs, rest + more);
    }
  }

  // Reading stops at a field that does not fit, whatever is expected after it.
  lemma {:induction false} DecodeStuck(seen: seq<Field>, k: Kind, p: Bytes, rest: Bytes, ks: seq<Kind>)
    requires p == EncodeFields(seen) + rest
    requires ReadField(k, rest) == None
    requires |seen| < |ks| && Starts(seen, ks) && ks[|seen|] == k
    ensures DecodeFields(ks, p) == None
  {
    if seen == [] {
      assert p == rest;
    } else {
      var tail := EncodeFields(seen[1..]) + rest;
      assert p == EncodeField(seen[0]) + tail;
      ReadFieldOfEncode(seen[0], tail);
      DecodeStuck(seen[1..], k, tail, rest, ks[1..]);
    }
  }

  lemma SliceOfRest(p: Bytes, start: nat, k: nat, n: nat)
    requires start + k + n <= |p|
    ensures p[start..][k..k + n] == p[start + k..start + k + n] && p[start..][k + n..] == p[start + k + n..]
  {
  }

  // ------------------------------------------------------------------ writer

  /** The byte buffer the put functions append to. */
  class Buffer {
    var out: Bytes
    ghost var fields: seq<Field>  // what has been put, in order

    ghost predicate Valid() reads this { out == EncodeFields(fields) }

    constructor ()
      ensures Valid() && out == [] && fields == []
    {
      out, fields := [], [];
    }

    method PutU8(v: u8)
      requires Valid()
      modifies this
      ensures Valid() && fields == old(fields) + [F8(v)]
    {
      EncodeFieldsAppend(fields, F8(v));
      out := out + [v as byte];
      fields := fields + [F8(v)];
      assert BigEndian(1, v) == BigEndian(0, 0) + [v as byte];
    }

    method PutU16(v: u16)
      requires Valid()
      modifies this
      ensures Valid() && fields == old(fields) + [F16(v)]
    {
      EncodeFieldsAppend(fields, F16(v));
      out := out + [(v / 0x100 % 0x100) as byte];
      out := out + [(v % 0x100) as byte];
      fields := fields + [F16(v)];
      assert BigEndian(1, v / 0x100) == BigEndian(0, 0) + [(v / 0x100 % 0x100) as byte];
      assert BigEndian(2, v) == BigEndian(1, v / 0x100) + [(v % 0x100) as byte];
    }

    method PutU32(v: u32)
      requires Valid()
      modifies this
      ensures Valid() && fields == old(fields) + [F32(v)]
    {
      EncodeFieldsAppend(fields, F32(v));
      AppendU32(v);
      fields := fields + [F32(v)];
    }

    // The four bytes of v, high byte first.
    method AppendU32(v: u32)
      modifies this`out
      ensures out == old(out) + BigEndian(4, v)
    {
      var b3, b2, b1, b0 := v / 0x100_0000 % 0x100, v / 0x1_0000 % 0x100, v / 0x100 % 0x100, v % 0x100;
      FourBytes(v);
      ghost var before := out;
      out := out + [b3 as byte];
      out := out + [b2 as byte];
      out := out + [b1 as byte];
      out := out + [b0 as byte];
      assert out == before + [b3 as byte, b2 as byte, b1 as byte, b0 as byte];
    }

    method PutU64(v: u64)
      requires Valid()
      modifies this
      ensures Valid() && fields == old(fields) + [F64(v)]
    {
      EncodeFieldsAppend(fields, F64(v));
      AppendU64(v);
      fields := fields + [F64(v)];
    }

    // The eight bytes of v, high byte first, one shift at a time.
    method AppendU64(v: u64)
      modifies this`out
      ensures out == old(out) + BigEndian(8, v)
    {
      Pow256Values();
      var s := 8;
      while s > 0
        invariant 0 <= s <= 8
        invariant out == old(out) + BigEndian(8 - s, v / Pow256(s))
      {
        s := s - 1;
        ghost var high := BigEndian(8 - s - 1, v / Pow256(s + 1));
        ghost var x := v / Pow256(s);
        DivDiv(v, Pow256(s), 0x100);
        out := out + [(v / Pow256(s) % 0x100) as byte];
        assert BigEndian(8 - s, x) == high + [(x % 0x100) as byte];
      }
    }

    method PutBytes(b: Bytes)
      modifies this`out
      ensures out == old(out) + b
    {
      out := out + b;
    }

    method PutBlob(b: Blob)
      requires Valid()
      modifies this
      ensures Valid() && fields == old(fields) + [FBlob(b)]
    {
      EncodeFieldsAppend(fields, FBlob(b));
      ghost var (before, prefix) := (out, BigEndian(4, |b|));
      AppendU32(|b|);
      PutBytes(b);
      assert before + prefix + b == before + (prefix + b);
      fields := fields + [FBlob(b)];
    }

    method PutHash(h: Hash256)
      requires Valid()
      modifies this
      ensures Valid() && fields == old(fields) + [FHash(h)]
    {
      EncodeFieldsAppend(fields, FHash(h));
      PutBytes(h);
      fields := fields + [FHash(h)];
    }
  }

  // ------------------------------------------------------------------ reader

  /** The bounds-checked sequential reader.  Reading past the end is the thrown
      DeserializeError, modelled as None; the exception abandons the reader.
      `layout` says which fields the code holding the reader goes on to take. */
  class ByteReader {
    const p: Bytes
    var off: nat
    ghost const layout: seq<Kind>
    ghost var seen: seq<Field>  // the fields taken so far

    ghost predicate Valid() reads this {
      && off <= |p| && p == EncodeFields(seen) + p[off..]
      && Starts(seen, layout)
    }

    ghost predicate Expects(k: Kind) reads this {
      Valid() && |seen| < |layout| && layout[|seen|] == k
    }

    constructor (p: Bytes, ghost layout: seq<Kind>)
      ensures Valid() && this.p == p && this.layout == layout && seen == []
    {
      this.p, off, this.layout, seen := p, 0, layout, [];
    }

    ghost method Advance(k: Kind, v: Field, start: nat)
      requires start <= off <= |p| && p == EncodeFields(seen) + p[start..]
      requires ReadField(k, p[start..]) == Some((v, p[off..]))
      requires Starts(seen, layout) && |seen| < |layout| && layout[|seen|] == k
      modifies this`seen
      ensures Valid() && seen == old(seen) + [v]
    {
      ghost var (before, after) := (EncodeFields(seen), EncodeField(v));
      assert p[start..] == after + p[off..] by { EncodeOfReadField(k, p[start..]); }
      assert before + (after + p[off..]) == before + after + p[off..];
      EncodeFieldsAppend(seen, v);
      seen := seen + [v];
    }

    lemma Stuck(k: Kind, start: nat)
      requires start <= |p| && p == EncodeFields(seen) + p[start..]
      requires Starts(seen, layout) && |seen| < |layout| && layout[|seen|] == k
      requires ReadField(k, p[start..]) == None
      ensures DecodeFields(layout, p) == None
    {
      DecodeStuck(seen, k, p, p[start..], layout);
    }

    method U8() returns (r: Option<u8>)
      requires Expects(K8)
      modifies this
      ensures r.Some? ==> Valid() && seen == old(seen) + [F8(r.value)]
      ensures r.None? ==> DecodeFields(layout, p) == None
    {
      if off + 1 > |p| { Stuck(K8, off); return None; }
      ghost var start := off;
      var v: u8 := p[off] as nat;
      off := off + 1;
      assert p[start..][..1] == [p[start]] && p[start..][..1][..0] == [];
      assert p[start..][1..] == p[off..];
      Advance(K8, F8(v), start);
      return Some(v);
    }

    method U16() returns (r: Option<u16>)
      requires Expects(K16)
      modifies this
      ensures r.Some? ==> Valid() && seen == old(seen) + [F16(r.value)]
      ensures r.None? ==> DecodeFields(layout, p) == None
    {
      if off + 2 > |p| { Stuck(K16, off); return None; }
      ghost var start := off;
      var v: u16 := p[off] as nat * 0x100 + p[off + 1] as nat;
      off := off + 2;
      ghost var b := p[start..][..2];
      assert b == [p[start], p[start + 1]] && b[..1] == [p[start]] && b[..1][..0] == [];
      assert Value(b[..1]) == p[start] as nat;
      assert p[start..][2..] == p[off..];
      Advance(K16, F16(v), start);
      return Some(v);
    }

    method U32() returns (r: Option<u32>)
      requires Expects(K32)
      modifies this
      ensures r.Some? ==> Valid() && seen == old(seen) + [F32(r.value)]
      ensures r.None? ==> DecodeFields(layout, p) == None
    {
      if off + 4 > |p| { Stuck(K32, off); return None; }
      ghost var start := off;
      var v := RawU32();
      assert p[start..][..4] == p[start..start + 4] && p[start..][4..] == p[off..];
      Advance(K32, F32(v), start);
      return Some(v);
    }

    method RawU32() returns (v: u32)
      requires off + 4 <= |p|
      modifies this`off
      ensures off == old(off) + 4 && v == Value(p[old(off)..off])
    {
      v := p[off] as nat * 0x100_0000 + p[off + 1] as nat * 0x1_0000 + p[off + 2] as nat * 0x100 + p[off + 3] as nat;
      ghost var b := p[off..off + 4];
      assert b[..3][..2] == b[..2] && b[..2][..1] == b[..1] && b[..1][..0] == [];
      assert Value(b[..1]) == p[off] as nat;
      assert Value(b[..2]) == p[off] as nat * 0x100 + p[off + 1] as nat;
      assert Value(b[..3]) == p[off] as nat * 0x1_0000 + p[off + 1] as nat * 0x100 + p[off + 2] as nat;
      off := off + 4;
    }

    method U64() returns (r: Option<u64>)
      requires Expects(K64)
      modifies this
      ensures r.Some? ==> Valid() && seen == old(seen) + [F64(r.value)]
      ensures r.None? ==> DecodeFields(layout, p) == None
    {
      if off + 8 > |p| { Stuck(K64, off); return None; }
      ghost var start := off;
      var v := RawU64();
      assert p[start..][..8] == p[start..start + 8] && p[start..][8..] == p[off..];
      Advance(K64, F64(v), start);
      return Some(v);
    }

    method RawU64() returns (v: u64)
      requires off + 8 <= |p|
      modifies this`off
      ensures off == old(off) + 8 && v == Value(p[old(off)..off])
    {
      var n: nat := 0;
      for i := 0 to 8
        invariant n == Value(p[off..off + i])
      {
        n := n * 0x100 + p[off + i] as nat;
        assert p[off..off + i + 1][..i] == p[off..off + i];
      }
      BigEndianOfValue(p[off..off + 8]);
      Pow256Values();
      v := n;
      off := off + 8;
    }

    method Blob() returns (r: Option<Blob>)
      requires Expects(KBlob)
      modifies this
      ensures r.Some? ==> Valid() && seen == old(seen) + [FBlob(r.value)]
      ensures r.None? ==> DecodeFields(layout, p) == None
    {
      ghost var start := off;
      ghost var b := p[start..];
      if off + 4 > |p| { Stuck(KBlob, off); return None; }
      var n := RawU32();
      assert b[..4] == p[start..start + 4];
      if off + n > |p| {
        assert ReadField(KBlob, b) == None;
        Stuck(KBlob, start);
        return None;
      }
      var v := p[off..off + n];
      SliceOfRest(p, start, 4, n);
      off := off + n;
      Advance(KBlob, FBlob(v), start);
      return Some(v);
    }

    method Hash() returns (r: Option<Hash256>)
      requires Expects(KHash)
      modifies this
      ensures r.Some? ==> Valid() && seen == old(seen) + [FHash(r.value)]
      ensures r.None? ==> DecodeFields(layout, p) == None
    {
      if off + 32 > |p| { Stuck(KHash, off); return None; }
      ghost var start := off;
      var v: Hash256 := p[off..off + 32];
      off := off + 32;
      assert p[start..][..32] == v && p[start..][32..] == p[off..];
      Advance(KHash, FHash(v), start);
      return Some(v);
    }

    // All expected fields taken: they are what the payload decodes to.
    lemma Done()
      requires Valid() && |seen| == |layout|
      ensures DecodeFields(layout, p) == Some((seen, p[off..]))
    {
      DecodeOfEncode(layout, seen, p[off..]);
    }
  }
}

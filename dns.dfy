// src/AMCDns.c: the DNS query serialiser.  A question (section 4.1.2 of
// RFC 1035) is the QNAME, written as labels (section 3.1) or as a
// compression pointer (section 4.1.4), then QTYPE and QCLASS.  Names are the
// bytes of a C string, without its terminating NUL.  The label length is a
// `uint8_t` in the source, so it wraps after 255 characters; the model
// keeps that wrap.
module Dns {
  import opened Wrappers
  import opened Errno
  import opened RbError
  import opened EpCommon
  import opened Timeout
  import opened EpEvent

  newtype Byte = x: int | 0 <= x < 256

  const DOT: Byte := 0x2E
  const UDP_PACKAGE_LEN_MAX: nat := 1480
  const DNS_DOMAIN_LEN_MAX: nat := 255
  const DNS_HEADER_LEN: nat := 12
  const DNS_OPCODE_INQUIRY: bv16 := 0
  const DNS_RR_TYPE_A: int := 1
  const DNS_RR_TYPE_AAAA: int := 28
  const DNS_CLASS_INTERNET: int := 1
  const DNS_TRANSACTION_ID: int := 0x1234
  // Linux address families.
  const AF_INET: int := 2
  const AF_INET6: int := 10

  /** A C string's bytes: no NUL inside. */
  predicate NoNul(s: seq<Byte>)
  {
    forall i :: 0 <= i < |s| ==> s[i] != 0
  }

  // ---------------------------------------------------------------- 16-bit fields

  /** The two bytes `htons(v)` followed by `_copy_uint16` put in the buffer: `v` as a `uint16_t`, high byte first. */
  function Be16(v: int): (b: seq<Byte>)
    ensures |b| == 2
    ensures b[0] as int * 256 + b[1] as int == v % 0x1_0000
  {
    var u := v % 0x1_0000;
    [(u / 256) as Byte, (u % 256) as Byte]
  }

  /** QTYPE, then QCLASS (Internet). */
  function TypeClass(rrType: int): (b: seq<Byte>)
    ensures |b| == 4 && b[2..] == [0x00, 0x01]
  {
    Be16(rrType) + Be16(DNS_CLASS_INTERNET)
  }

  /** A type that fits 16 bits reads back from its two bytes, and the types the requests use are A and AAAA. */
  lemma TypeRoundTrip(rrType: int)
    requires 0 <= rrType < 0x1_0000
    ensures TypeClass(rrType)[0] as int * 256 + TypeClass(rrType)[1] as int == rrType
    ensures TypeClass(DNS_RR_TYPE_A)[..2] == [0, 1] && TypeClass(DNS_RR_TYPE_AAAA)[..2] == [0, 28]
  {
  }

  /**
   * `0xC000 | v` on a `uint16_t` forces the two top bits and keeps the other
   * fourteen: it is `0xC000` plus `v`'s low fourteen bits.  The model writes
   * the compression pointer with that sum.
   */
  lemma OrIsForcedBits(v: bv16)
    ensures 0xC000 | v == 0xC000 + (v & 0x3FFF)
    ensures (0xC000 | v) >> 14 == 3 && (0xC000 | v) & 0x3FFF == v & 0x3FFF
  {
  }

  /** `comprVal` of `_dns_append_req_data`: `0xC000 | (uint16_t)offset`. */
  function ComprVal(offset: int): (v: int)
    ensures 0xC000 <= v < 0x1_0000 && v - 0xC000 == (offset % 0x1_0000) % 0x4000
  {
    0xC000 + (offset % 0x1_0000) % 0x4000
  }

  /** The compression pointer of section 4.1.4 of RFC 1035, high byte first. */
  function Pointer(offset: int): (b: seq<Byte>)
    ensures |b| == 2
  {
    Be16(ComprVal(offset))
  }

  /** A pointer has its two top bits set and carries the offset's low fourteen bits in the other fourteen. */
  lemma PointerRoundTrip(offset: int)
    ensures Pointer(offset)[0] as int / 64 == 3
    ensures (Pointer(offset)[0] as int % 64) * 256 + Pointer(offset)[1] as int == (offset % 0x1_0000) % 0x4000
    ensures 0 <= offset < 0x4000 ==> (Pointer(offset)[0] as int % 64) * 256 + Pointer(offset)[1] as int == offset
  {
    var v := ComprVal(offset);
    var hi := Pointer(offset)[0] as int;
    var lo := Pointer(offset)[1] as int;
    assert hi * 256 + lo == v && lo < 256;
    assert 192 <= hi;
    assert hi % 64 == hi - 192;
  }

  // ---------------------------------------------------------------- labels

  /** The length byte: a label's length as a `uint8_t`. */
  function LenByte(n: nat): Byte
  {
    (n % 256) as Byte
  }

  /**
   * The labels the name loop writes for the rest `rest` of the name when the
   * current label so far is `part`: a dot closes the label (length byte and
   * characters), the end closes it and adds the zero byte.
   */
  function EncodeFrom(rest: seq<Byte>, part: seq<Byte>): seq<Byte>
    decreases |rest|
  {
    if rest == [] then [LenByte(|part|)] + part + [0]
    else if rest[0] == DOT then [LenByte(|part|)] + part + EncodeFrom(rest[1..], [])
    else EncodeFrom(rest[1..], part + [rest[0]])
  }

  /** The QNAME of section 3.1 of RFC 1035 for a name. */
  function QName(name: seq<Byte>): seq<Byte>
  {
    EncodeFrom(name, [])
  }

  /**
   * How far the name loop moves the buffer for `rest` when the current label
   * has `count` characters: each label's length byte plus its length as a
   * `uint8_t`, and the zero byte.
   */
  function AdvanceFrom(rest: seq<Byte>, count: nat): nat
    decreases |rest|
  {
    if rest == [] then count % 256 + 2
    else if rest[0] == DOT then count % 256 + 1 + AdvanceFrom(rest[1..], 0)
    else AdvanceFrom(rest[1..], count + 1)
  }

  /** No label from here on (the current one has `count` characters) reaches 256 characters. */
  predicate ShortFrom(rest: seq<Byte>, count: nat)
    decreases |rest|
  {
    if rest == [] then count < 256
    else if rest[0] == DOT then count < 256 && ShortFrom(rest[1..], 0)
    else ShortFrom(rest[1..], count + 1)
  }

  /** Every label of the name is shorter than 256 characters. */
  predicate ShortLabels(name: seq<Byte>)
  {
    ShortFrom(name, 0)
  }

  lemma {:induction false} EncodeFromLength(rest: seq<Byte>, part: seq<Byte>)
    ensures |EncodeFrom(rest, part)| == |rest| + |part| + 2
    decreases |rest|
  {
    if rest != [] {
      if rest[0] == DOT {
        EncodeFromLength(rest[1..], []);
      } else {
        EncodeFromLength(rest[1..], part + [rest[0]]);
      }
    }
  }

  lemma {:induction false} AdvanceFromShort(rest: seq<Byte>, count: nat)
    requires ShortFrom(rest, count)
    ensures AdvanceFrom(rest, count) == |rest| + count + 2
    decreases |rest|
  {
    if rest != [] {
      if rest[0] == DOT {
        AdvanceFromShort(rest[1..], 0);
      } else {
        AdvanceFromShort(rest[1..], count + 1);
      }
    }
  }

  lemma {:induction false} AdvanceBound(rest: seq<Byte>, count: nat)
    ensures AdvanceFrom(rest, count) <= |rest| + count + 2
    decreases |rest|
  {
    if rest != [] {
      if rest[0] == DOT {
        AdvanceBound(rest[1..], 0);
      } else {
        AdvanceBound(rest[1..], count + 1);
      }
    }
  }

  /** The wire form of a name takes its length plus two bytes, and so does the loop's advance when no label wraps. */
  lemma QNameLength(name: seq<Byte>)
    ensures |QName(name)| == |name| + 2
    ensures AdvanceFrom(name, 0) <= |name| + 2
    ensures ShortLabels(name) ==> AdvanceFrom(name, 0) == |name| + 2
  {
    EncodeFromLength(name, []);
    AdvanceBound(name, 0);
    if ShortLabels(name) {
      AdvanceFromShort(name, 0);
    }
  }

  /** Without dots the advance is the character count as a `uint8_t`, plus the length and zero bytes. */
  lemma {:induction false} AdvanceOneLabel(rest: seq<Byte>, count: nat)
    requires forall i :: 0 <= i < |rest| ==> rest[i] != DOT
    ensures AdvanceFrom(rest, count) == (count + |rest|) % 256 + 2
    decreases |rest|
  {
    if rest != [] {
      AdvanceOneLabel(rest[1..], count + 1);
    }
  }

  lemma {:induction false} LongLabelNotShort(rest: seq<Byte>, count: nat)
    requires forall i :: 0 <= i < |rest| ==> rest[i] != DOT
    requires count + |rest| >= 256
    ensures !ShortFrom(rest, count)
    decreases |rest|
  {
    if rest != [] {
      LongLabelNotShort(rest[1..], count + 1);
    }
  }

  /** A single label of 256 characters advances the buffer by two bytes only: its length byte reads 0. */
  lemma LongLabelWraps(name: seq<Byte>)
    requires |name| == 256 && forall i :: 0 <= i < |name| ==> name[i] != DOT
    ensures AdvanceFrom(name, 0) == 2 && !ShortLabels(name)
  {
    AdvanceOneLabel(name, 0);
    LongLabelNotShort(name, 0);
  }

  /** Reads a label sequence back into the dotted name; None unless the bytes are exactly one name. */
  function DecodeName(b: seq<Byte>): Option<seq<Byte>>
    decreases |b|
  {
    if |b| == 0 then None
    else if b[0] == 0 then (if |b| == 1 then Some([]) else None)
    else if |b| < 1 + b[0] as int then None
    else
      var part := b[1..1 + b[0] as int];
      match DecodeName(b[1 + b[0] as int..])
      case None => None
      case Some(tail) => if tail == [] then Some(part) else Some(part + [DOT] + tail)
  }

  /** Every label from here on is non-empty and shorter than 256 characters, and no character is NUL. */
  predicate ValidFrom(rest: seq<Byte>, count: nat)
    decreases |rest|
  {
    if rest == [] then 0 < count < 256
    else if rest[0] == DOT then 0 < count < 256 && ValidFrom(rest[1..], 0)
    else rest[0] != 0 && ValidFrom(rest[1..], count + 1)
  }

  /** A name the label form can carry: non-empty labels below 256 characters, no NUL. */
  predicate ValidName(name: seq<Byte>)
  {
    ValidFrom(name, 0)
  }

  lemma {:induction false} DecodeEncodeFrom(rest: seq<Byte>, part: seq<Byte>)
    requires ValidFrom(rest, |part|)
    requires forall i :: 0 <= i < |part| ==> part[i] != DOT
    ensures DecodeName(EncodeFrom(rest, part)) == Some(part + rest)
    decreases |rest|
  {
    var n := |part|;
    if rest == [] {
      var b := [LenByte(n)] + part + [0];
      assert b[0] as int == n;
      assert b[1..1 + n] == part;
      assert b[1 + n..] == [0];
      assert part + rest == part;
    } else if rest[0] == DOT {
      var tail := rest[1..];
      var tailBytes := EncodeFrom(tail, []);
      var b := [LenByte(n)] + part + tailBytes;
      assert EncodeFrom(rest, part) == b;
      assert b[0] as int == n;
      assert b[1..1 + n] == part;
      assert b[1 + n..] == tailBytes;
      DecodeEncodeFrom(tail, []);
      assert [] + tail == tail;
      assert ValidFrom(tail, 0);
      assert part + [DOT] + tail == part + rest;
    } else {
      DecodeEncodeFrom(rest[1..], part + [rest[0]]);
      assert part + [rest[0]] + rest[1..] == part + rest;
    }
  }

  /** The label form of a valid name reads back as the name. */
  lemma DecodeQName(name: seq<Byte>)
    requires ValidName(name)
    ensures DecodeName(QName(name)) == Some(name)
  {
    DecodeEncodeFrom(name, []);
    assert [] + name == name;
  }

  /** A valid name has short labels and no NUL. */
  lemma {:induction false} ValidFromShort(rest: seq<Byte>, count: nat)
    requires ValidFrom(rest, count)
    ensures ShortFrom(rest, count) && NoNul(rest)
    decreases |rest|
  {
    if rest != [] {
      if rest[0] == DOT {
        ValidFromShort(rest[1..], 0);
      } else {
        ValidFromShort(rest[1..], count + 1);
      }
      assert forall i :: 1 <= i < |rest| ==> rest[i] == rest[1..][i - 1];
    }
  }

  // ---------------------------------------------------------------- writing

  /** `htons(v)` then `_copy_uint16`: two bytes at `at`; returns 2. */
  method Put16(buff: array<Byte>, at: nat, v: int) returns (n: nat)
    requires at + 2 <= buff.Length
    modifies buff
    ensures n == 2 && buff[..at + 2] == old(buff[..at]) + Be16(v) && buff[at + 2..] == old(buff[at + 2..])
  {
    var b := Be16(v);
    buff[at] := b[0];
    buff[at + 1] := b[1];
    return 2;
  }

  /**
   * Where the name loop stands after `i` characters of `name`, the buffer as
   * a sequence `s`, when the current label's slot is at `lenPtr` and it has
   * `count` characters so far: they follow the slot, and the advance still
   * to come completes the name's.
   */
  ghost predicate Counting(s: seq<Byte>, at: nat, lenPtr: nat, i: nat, count: nat, name: seq<Byte>)
  {
    i <= |name| && count <= i && at <= lenPtr && lenPtr - at + count <= i && at + |name| + 2 <= |s| &&
    s[lenPtr + 1..lenPtr + 1 + count] == name[i - count..i] &&
    lenPtr - at + AdvanceFrom(name[i..], count) == AdvanceFrom(name, 0)
  }

  /** With short labels, the bytes before the slot and what the rest of the name will write make its QNAME. */
  ghost predicate Prefix(s: seq<Byte>, at: nat, lenPtr: nat, i: nat, count: nat, name: seq<Byte>)
  {
    (count <= i <= |name| && at <= lenPtr <= |s| && ShortLabels(name)) ==>
      ShortFrom(name[i..], count) && s[at..lenPtr] + EncodeFrom(name[i..], name[i - count..i]) == QName(name)
  }

  /** The name loop is over: the buffer moved by the name's advance and, with short labels, holds its QNAME. */
  ghost predicate Finished(s: seq<Byte>, at: nat, lenPtr: nat, name: seq<Byte>)
  {
    at + AdvanceFrom(name, 0) == lenPtr && lenPtr <= |s| &&
    (ShortLabels(name) ==> s[at..lenPtr] == QName(name))
  }

  /** One pass over an ordinary character: it goes after the current label. */
  lemma CharCount(s: seq<Byte>, at: nat, lenPtr: nat, i: nat, count: nat, name: seq<Byte>)
    requires Counting(s, at, lenPtr, i, count, name) && i < |name| && name[i] != DOT
    ensures Counting(s[lenPtr + 1 + count := name[i]], at, lenPtr, i + 1, count + 1, name)
  {
    var s' := s[lenPtr + 1 + count := name[i]];
    assert name[i..][1..] == name[i + 1..];
    assert s'[lenPtr + 1..lenPtr + 2 + count] == s[lenPtr + 1..lenPtr + 1 + count] + [name[i]];
    assert name[i + 1 - (count + 1)..i + 1] == name[i - count..i] + [name[i]];
  }

  lemma CharPrefix(s: seq<Byte>, at: nat, lenPtr: nat, i: nat, count: nat, name: seq<Byte>)
    requires Counting(s, at, lenPtr, i, count, name) && Prefix(s, at, lenPtr, i, count, name)
    requires i < |name| && name[i] != DOT
    requires Counting(s[lenPtr + 1 + count := name[i]], at, lenPtr, i + 1, count + 1, name)
    ensures Prefix(s[lenPtr + 1 + count := name[i]], at, lenPtr, i + 1, count + 1, name)
  {
    var s' := s[lenPtr + 1 + count := name[i]];
    assert name[i..][1..] == name[i + 1..];
    assert s'[at..lenPtr] == s[at..lenPtr];
    assert name[i + 1 - (count + 1)..i + 1] == name[i - count..i] + [name[i]];
  }

  /** One pass over a dot: the current label's length goes in its slot and a new label opens after it. */
  lemma DotCount(s: seq<Byte>, at: nat, lenPtr: nat, i: nat, count: nat, name: seq<Byte>)
    requires Counting(s, at, lenPtr, i, count, name) && i < |name| && name[i] == DOT
    ensures Counting(s[lenPtr := LenByte(count)], at, lenPtr + count % 256 + 1, i + 1, 0, name)
  {
    var s' := s[lenPtr := LenByte(count)];
    var next := lenPtr + count % 256 + 1;
    assert name[i..][1..] == name[i + 1..];
    assert AdvanceFrom(name[i..], count) == count % 256 + 1 + AdvanceFrom(name[i + 1..], 0);
    assert s'[next + 1..next + 1] == [] == name[i + 1..i + 1];
  }

  lemma DotPrefix(s: seq<Byte>, at: nat, lenPtr: nat, i: nat, count: nat, name: seq<Byte>)
    requires Counting(s, at, lenPtr, i, count, name) && Prefix(s, at, lenPtr, i, count, name)
    requires i < |name| && name[i] == DOT
    requires Counting(s[lenPtr := LenByte(count)], at, lenPtr + count % 256 + 1, i + 1, 0, name)
    ensures Prefix(s[lenPtr := LenByte(count)], at, lenPtr + count % 256 + 1, i + 1, 0, name)
  {
    if ShortLabels(name) {
      var s' := s[lenPtr := LenByte(count)];
      var cur := name[i - count..i];
      assert name[i..][1..] == name[i + 1..];
      assert count < 256 && ShortFrom(name[i + 1..], 0);
      assert EncodeFrom(name[i..], cur) == [LenByte(count)] + cur + EncodeFrom(name[i + 1..], []);
      assert s'[at..lenPtr] == s[at..lenPtr];
      assert s'[lenPtr + 1..lenPtr + 1 + count] == cur;
      assert s'[at..lenPtr + count + 1] == s'[at..lenPtr] + [s'[lenPtr]] + s'[lenPtr + 1..lenPtr + 1 + count];
      assert name[i + 1 - 0..i + 1] == [];
    }
  }

  /** The pass at the end: the zero byte after the characters and the last label's length in its slot. */
  lemma EndStep(s: seq<Byte>, at: nat, lenPtr: nat, i: nat, count: nat, name: seq<Byte>)
    requires Counting(s, at, lenPtr, i, count, name) && Prefix(s, at, lenPtr, i, count, name) && i == |name|
    ensures Finished(s[lenPtr + 1 + count := 0][lenPtr := LenByte(count)], at, lenPtr + count % 256 + 2, name)
  {
    var s' := s[lenPtr + 1 + count := 0][lenPtr := LenByte(count)];
    assert name[i..] == [];
    if ShortLabels(name) {
      assert count < 256;
      assert s'[at..lenPtr + 2 + count] ==
        s[at..lenPtr] + [LenByte(count)] + s[lenPtr + 1..lenPtr + 1 + count] + [0];
    }
  }

  /** The loop's `default` case: the character goes after the current label. */
  method PutChar(buff: array<Byte>, at: nat, lenPtr: nat, charPtr: nat, len: Byte, i: nat, ghost count: nat, name: seq<Byte>)
    requires charPtr == lenPtr + 1 + count && len == LenByte(count)
    requires Counting(buff[..], at, lenPtr, i, count, name) && Prefix(buff[..], at, lenPtr, i, count, name)
    requires i < |name| && name[i] != DOT
    modifies buff
    ensures Counting(buff[..], at, lenPtr, i + 1, count + 1, name) && Prefix(buff[..], at, lenPtr, i + 1, count + 1, name)
    ensures buff[..at] == old(buff[..at]) && buff[at + |name| + 2..] == old(buff[at + |name| + 2..])
  {
    ghost var s := buff[..];
    buff[charPtr] := name[i];
    assert buff[..] == s[lenPtr + 1 + count := name[i]];
    CharCount(s, at, lenPtr, i, count, name);
    CharPrefix(s, at, lenPtr, i, count, name);
  }

  /** The loop's '.' case: the label's length goes in its slot. */
  method CloseLabel(buff: array<Byte>, at: nat, lenPtr: nat, charPtr: nat, len: Byte, i: nat, ghost count: nat, name: seq<Byte>)
    returns (next: nat)
    requires charPtr == lenPtr + 1 + count && len == LenByte(count)
    requires Counting(buff[..], at, lenPtr, i, count, name) && Prefix(buff[..], at, lenPtr, i, count, name)
    requires i < |name| && name[i] == DOT
    modifies buff
    ensures next == lenPtr + len as int + 1
    ensures Counting(buff[..], at, next, i + 1, 0, name) && Prefix(buff[..], at, next, i + 1, 0, name)
    ensures buff[..at] == old(buff[..at]) && buff[at + |name| + 2..] == old(buff[at + |name| + 2..])
  {
    ghost var s := buff[..];
    buff[lenPtr] := len;
    assert buff[..] == s[lenPtr := LenByte(count)];
    DotCount(s, at, lenPtr, i, count, name);
    DotPrefix(s, at, lenPtr, i, count, name);
    next := lenPtr + len as int + 1;
  }

  /** The loop's '\0' case: the zero byte after the characters, the last length in its slot. */
  method CloseName(buff: array<Byte>, at: nat, lenPtr: nat, charPtr: nat, len: Byte, i: nat, ghost count: nat, name: seq<Byte>)
    returns (next: nat)
    requires charPtr == lenPtr + 1 + count && len == LenByte(count)
    requires Counting(buff[..], at, lenPtr, i, count, name) && Prefix(buff[..], at, lenPtr, i, count, name)
    requires i == |name|
    modifies buff
    ensures next == lenPtr + len as int + 2 && Finished(buff[..], at, next, name)
    ensures buff[..at] == old(buff[..at]) && buff[at + |name| + 2..] == old(buff[at + |name| + 2..])
  {
    ghost var s := buff[..];
    buff[charPtr] := 0;
    buff[lenPtr] := len;
    assert buff[..] == s[lenPtr + 1 + count := 0][lenPtr := LenByte(count)];
    EndStep(s, at, lenPtr, i, count, name);
    next := lenPtr + len as int + 2;
  }

  /** `len ++` on the `uint8_t` length follows the character count. */
  lemma LenByteNext(count: nat)
    ensures LenByte(count + 1) == ((LenByte(count) as int + 1) % 256) as Byte
  {
  }

  /** One pass of the name loop's `switch`, on the character at `i` or the end of the name. */
  method NamePass(buff: array<Byte>, at: nat, lenPtr: nat, charPtr: nat, len: Byte, i: nat, ghost count: nat, name: seq<Byte>)
    returns (lenPtr': nat, charPtr': nat, len': Byte, i': nat, ghost count': nat, isDone: bool)
    requires charPtr == lenPtr + 1 + count && len == LenByte(count)
    requires Counting(buff[..], at, lenPtr, i, count, name) && Prefix(buff[..], at, lenPtr, i, count, name)
    modifies buff
    ensures if isDone then i' == i == |name| else i' == i + 1
    ensures len' == LenByte(count')
    ensures !isDone ==> charPtr' == lenPtr' + 1 + count'
    ensures !isDone ==> Counting(buff[..], at, lenPtr', i', count', name) && Prefix(buff[..], at, lenPtr', i', count', name)
    ensures isDone ==> Finished(buff[..], at, lenPtr', name)
    ensures buff[..at] == old(buff[..at]) && buff[at + |name| + 2..] == old(buff[at + |name| + 2..])
  {
    if i == |name| {
      lenPtr' := CloseName(buff, at, lenPtr, charPtr, len, i, count, name);
      charPtr', len', i', count', isDone := charPtr, len, i, count, true;
    } else if name[i] == DOT {
      lenPtr' := CloseLabel(buff, at, lenPtr, charPtr, len, i, count, name);
      charPtr', len', i', count', isDone := lenPtr' + 1, 0, i + 1, 0, false;
    } else {
      PutChar(buff, at, lenPtr, charPtr, len, i, count, name);
      LenByteNext(count);
      lenPtr', charPtr', len', i', count', isDone := lenPtr, charPtr + 1, ((len as int + 1) % 256) as Byte, i + 1, count + 1, false;
    }
  }

  /**
   * The name loop of `_dns_append_req_data`: characters go after the length
   * slot, a dot writes the `uint8_t` length and opens the next slot, and the
   * end writes the zero byte and the last length.  Returns how far the
   * buffer moved.
   */
  method WriteName(buff: array<Byte>, at: nat, name: seq<Byte>) returns (moved: nat)
    requires NoNul(name) && at + |name| + 2 <= buff.Length
    modifies buff
    ensures moved == AdvanceFrom(name, 0) && moved <= |name| + 2
    ensures ShortLabels(name) ==> buff[at..at + moved] == QName(name)
    ensures buff[..at] == old(buff[..at]) && buff[at + |name| + 2..] == old(buff[at + |name| + 2..])
  {
    var lenPtr: nat := at;
    var charPtr: nat := at + 1;
    var len: Byte := 0;
    var i: nat := 0;
    ghost var count: nat := 0;
    var isDone := false;
    while !isDone
      invariant len == LenByte(count) && i <= |name|
      invariant !isDone ==> charPtr == lenPtr + 1 + count
      invariant !isDone ==> Counting(buff[..], at, lenPtr, i, count, name) && Prefix(buff[..], at, lenPtr, i, count, name)
      invariant isDone ==> Finished(buff[..], at, lenPtr, name)
      invariant buff[..at] == old(buff[..at]) && buff[at + |name| + 2..] == old(buff[at + |name| + 2..])
      decreases |name| - i, if isDone then 0 else 1
    {
      lenPtr, charPtr, len, i, count, isDone := NamePass(buff, at, lenPtr, charPtr, len, i, count, name);
    }
    moved := lenPtr - at;
    QNameLength(name);
  }

  /** QTYPE and QCLASS at `at`, each through `htons` and `_copy_uint16`. */
  method PutTypeClass(buff: array<Byte>, at: nat, rrType: int)
    requires at + 4 <= buff.Length
    modifies buff
    ensures buff[..at + 4] == old(buff[..at]) + TypeClass(rrType) && buff[at + 4..] == old(buff[at + 4..])
  {
    var n := Put16(buff, at, rrType);
    ghost var mid := buff[..];
    n := Put16(buff, at + 2, DNS_CLASS_INTERNET);
    assert mid[..at + 2][..at] == mid[..at];
    assert buff[at + 4..] == mid[at + 2..][2..];
  }

  /** Bytes appended at `p` after a stretch that started at `at` extend that stretch and leave what lies before it. */
  lemma AppendedAt(a: seq<Byte>, b: seq<Byte>, at: nat, p: nat, t: seq<Byte>)
    requires at <= p <= |b| && p + |t| <= |a| && a[..p + |t|] == b[..p] + t
    ensures a[at..p + |t|] == b[at..p] + t && a[..at] == b[..at]
  {
    assert a[at..p + |t|] == a[..p + |t|][at..];
    assert a[..at] == a[..p + |t|][..at];
  }

  /** Two arrays that agree from `k` on agree from any later `k2` on. */
  lemma SuffixFrom(a: seq<Byte>, b: seq<Byte>, k: nat, k2: nat)
    requires k <= k2 <= |a| && |a| == |b| && a[k..] == b[k..]
    ensures a[k2..] == b[k2..]
  {
    assert a[k2..] == a[k..][k2 - k..];
    assert b[k2..] == b[k..][k2 - k..];
  }

  /** The room a question may take at the write position: the name and two bytes, or the pointer, and four more. */
  function Room(name: Option<seq<Byte>>): nat
  {
    (if name.Some? then |name.value| else 0) + 6
  }

  /**
   * `_dns_append_req_data`: the QNAME (the labels of `name`, or the
   * compression pointer to `offset` when `name` is NULL), then QTYPE and
   * QCLASS; returns the bytes written and reports the start in `namePtr`
   * when the caller asked for it.
   */
  method AppendReqData(buff: array<Byte>, at: nat, rrType: int, name: Option<seq<Byte>>, offset: int, wantNamePtr: bool)
    returns (len: nat, namePtr: Option<nat>)
    requires name.Some? ==> NoNul(name.value)
    requires at + Room(name) <= buff.Length
    modifies buff
    ensures name.None? ==> len == 6 && buff[at..at + 6] == Pointer(offset) + TypeClass(rrType)
    ensures name.Some? ==> len == AdvanceFrom(name.value, 0) + 4 && len <= |name.value| + 6
    ensures name.Some? && ShortLabels(name.value) ==>
      len == |name.value| + 6 && buff[at..at + len] == QName(name.value) + TypeClass(rrType)
    ensures namePtr == if wantNamePtr then Some(at) else None
    ensures buff[..at] == old(buff[..at]) && buff[at + Room(name)..] == old(buff[at + Room(name)..])
  {
    var moved := 2;
    if name.Some? {
      moved := WriteName(buff, at, name.value);
      QNameLength(name.value);
    } else {
      var comprVal := ComprVal(offset);
      var n := Put16(buff, at, comprVal);
      AppendedAt(buff[..], old(buff[..]), at, at, Pointer(offset));
    }
    ghost var named := buff[..];
    PutTypeClass(buff, at + moved, rrType);
    AppendedAt(buff[..], named, at, at + moved, TypeClass(rrType));
    SuffixFrom(buff[..], named, at + moved + 4, at + Room(name));
    SuffixFrom(named, old(buff[..]), if name.Some? then at + |name.value| + 2 else at + 2, at + Room(name));
    namePtr := if wantNamePtr then Some(at) else None;
    len := moved + 4;
  }

  // ---------------------------------------------------------------- header fields

  /** `_dns_gen_req_flags`: the standard-query opcode in bits 11 to 14, everything else clear. */
  function GenReqFlags(): (f: bv16)
    ensures (f >> 11) & 0x0F == DNS_OPCODE_INQUIRY && f >> 15 == 0 && f & 0x07FF == 0
  {
    0 | ((DNS_OPCODE_INQUIRY & 0x0F) << 11)
  }

  /** `_dns_get_reply_code`: the low four bits of the flags (two's complement, so Euclidean `% 16`), RCODE. */
  function ReplyCode(flags: CInt): (r: Byte)
    ensures r < 16 && r as int == flags % 16
  {
    (flags % 16) as Byte
  }

  /** The reply code is the RCODE field of a flags word, whatever the fields above it hold. */
  lemma ReplyCodeField(upper: nat, rcode: nat)
    requires rcode < 16 && upper < 0x1000
    ensures ReplyCode(upper * 16 + rcode) as int == rcode
  {
  }

  /** A query's own flags carry the reply code 0 (no error). */
  lemma RequestReplyCode()
    ensures ReplyCode(GenReqFlags() as int) == 0
  {
  }

  /** `_byte_to_char` of the dump helper: bytes from '!' to 0x7F as they are, a space as a space, anything else as '.'. */
  function ByteToChar(b: Byte): (c: char)
    ensures 0x21 <= b <= 0x7F ==> c == b as int as char
    ensures b == 0x20 ==> c == ' '
    ensures b < 0x20 || b > 0x7F ==> c == '.'
  {
    if 0x21 <= b && b <= 0x7F then b as int as char
    else if b == 0x0A then '.'
    else if b == 0x0D then '.'
    else if b == 0x20 then ' '
    else '.'
  }

  /** A shown byte is the byte itself exactly when it lies in 0x20..0x7F; everything shown lies there. */
  lemma ByteToCharKeeps(b: Byte)
    ensures ByteToChar(b) as int == b as int <==> 0x20 <= b <= 0x7F
    ensures 0x20 <= ByteToChar(b) as int <= 0x7F
  {
  }

  // ---------------------------------------------------------------- requests

  /** The header `_dns_INET4_send` writes: the transaction ID, the query flags, two questions, no records. */
  function Header(): (h: seq<Byte>)
    ensures |h| == DNS_HEADER_LEN && h[..2] == [0x12, 0x34] && h[4..6] == [0, 2] && h[6..] == [0, 0, 0, 0, 0, 0]
  {
    Be16(DNS_TRANSACTION_ID) + Be16(GenReqFlags() as int) + Be16(2) + Be16(0) + Be16(0) + Be16(0)
  }

  /** The bytes one request takes: the header and two questions for the same name. */
  function RequestLen(domain: seq<Byte>): nat
  {
    DNS_HEADER_LEN + 2 * (AdvanceFrom(domain, 0) + 4)
  }

  /** The header at the front of a fresh buffer. */
  method PutHeader(buff: array<Byte>)
    requires DNS_HEADER_LEN <= buff.Length
    modifies buff
    ensures buff[..DNS_HEADER_LEN] == Header()
  {
    var n := Put16(buff, 0, DNS_TRANSACTION_ID);
    n := Put16(buff, 2, GenReqFlags() as int);
    n := Put16(buff, 4, 2);
    n := Put16(buff, 6, 0);
    n := Put16(buff, 8, 0);
    n := Put16(buff, 10, 0);
    assert buff[..12] == buff[0..2] + buff[2..4] + buff[4..6] + buff[6..8] + buff[8..10] + buff[10..12];
  }

  /** A packet built in three stretches, the later writes leaving the earlier stretches alone. */
  lemma ThreeParts(first: seq<Byte>, last: seq<Byte>, a: nat, b: nat, c: nat)
    requires a + b + c <= |last| && a + b <= |first| && last[..a + b] == first[..a + b]
    ensures last[..a + b + c] == first[..a] + first[a..a + b] + last[a + b..a + b + c]
  {
    assert last[..a + b + c] == last[..a + b] + last[a + b..a + b + c];
    assert first[..a + b] == first[..a] + first[a..a + b];
  }

  /** How a request call ends and what it leaves in errno (`None`: untouched). */
  datatype Reply = Reply(out: Outcome, errno: Option<int>)

  /** A call that returns `r.ret` and sets errno as `r` says. */
  function Returning(r: Report): (y: Reply)
    ensures y.out == Returned(r.ret) && y.errno == r.errno
  {
    Reply(Returned(r.ret), r.errno)
  }

  /** What `sendto` turns into: 0 on success, else `RETURN_ERR(errno)`. */
  function SendResult(sent: Sys): (r: Report)
    ensures sent.Done? ==> r == Report(0, None)
    ensures sent.Failed? ==> r == ReturnErr(sent.errno)
  {
    if sent.Done? then Report(0, None) else ReturnErr(sent.errno)
  }

  /**
   * `_dns_INET4_send`: the header, an A question and an AAAA question, both
   * with the full name, in a 1480-byte buffer; then `sendto` (result `sent`).
   */
  method Inet4Send(domain: seq<Byte>, sent: Sys) returns (r: Report, packet: seq<Byte>)
    requires NoNul(domain) && DNS_HEADER_LEN + 2 * (|domain| + 6) <= UDP_PACKAGE_LEN_MAX
    ensures r == SendResult(sent)
    ensures |packet| == RequestLen(domain)
    ensures ShortLabels(domain) ==>
      packet == Header() + QName(domain) + TypeClass(DNS_RR_TYPE_A) + QName(domain) + TypeClass(DNS_RR_TYPE_AAAA)
  {
    var buff := new Byte[UDP_PACKAGE_LEN_MAX];
    PutHeader(buff);
    var len1, p1 := AppendReqData(buff, DNS_HEADER_LEN, DNS_RR_TYPE_A, Some(domain), 0, true);
    ghost var first := buff[..];
    var len2, p2 := AppendReqData(buff, DNS_HEADER_LEN + len1, DNS_RR_TYPE_AAAA, Some(domain), 0, true);
    packet := buff[..DNS_HEADER_LEN + len1 + len2];
    if ShortLabels(domain) {
      ThreeParts(first, buff[..], DNS_HEADER_LEN, len1, len2);
    }
    r := SendResult(sent);
  }

  /**
   * For a valid name the request `Inet4Send` builds is the full form, and the
   * name of its first question, right after the header, reads back as the
   * domain.
   */
  lemma RequestNameDecodes(domain: seq<Byte>)
    requires ValidName(domain)
    ensures ShortLabels(domain)
    ensures var packet := Header() + QName(domain) + TypeClass(DNS_RR_TYPE_A) + QName(domain) + TypeClass(DNS_RR_TYPE_AAAA);
      DNS_HEADER_LEN + |QName(domain)| <= |packet| &&
      DecodeName(packet[DNS_HEADER_LEN..DNS_HEADER_LEN + |QName(domain)|]) == Some(domain)
  {
    ValidFromShort(domain, 0);
    DecodeQName(domain);
    var rest := TypeClass(DNS_RR_TYPE_A) + QName(domain) + TypeClass(DNS_RR_TYPE_AAAA);
    assert Header() + QName(domain) + TypeClass(DNS_RR_TYPE_A) + QName(domain) + TypeClass(DNS_RR_TYPE_AAAA)
        == Header() + QName(domain) + rest;
    assert (Header() + QName(domain) + rest)[DNS_HEADER_LEN..DNS_HEADER_LEN + |QName(domain)|] == QName(domain);
  }

  /** What a call the argument check refuses does: a NULL domain crashes, otherwise ENAMETOOLONG or EINVAL by its length. */
  function RejectedRequest(domain: Option<seq<Byte>>): (y: Reply)
    ensures y.out != Hang && (y.out == Crash <==> domain.None?)
    ensures y.out.Returned? ==> y.out.ret < 0 && y.errno.Some? && y.errno.value == -y.out.ret
    ensures domain.Some? ==> y.errno == Some(if |domain.value| > DNS_DOMAIN_LEN_MAX then ENAMETOOLONG else EINVAL)
  {
    if domain.None? then Reply(Crash, None)
    else if |domain.value| > DNS_DOMAIN_LEN_MAX then Returning(ReturnErr(ENAMETOOLONG))
    else Returning(ReturnErr(EINVAL))
  }

  /**
   * `AMCDns_WriteRequest`.  The argument check lets a request through when
   * the descriptor is positive and the domain, the address and its length
   * are given; only otherwise is the domain length looked at (NULL crashes
   * in `strlen`).  Then the address family decides: IPv4 sends, IPv6 is
   * ENOSYS, anything else EFAULT.  `family` None is a NULL address.
   */
  method WriteRequest(fd: CInt, domain: Option<seq<Byte>>, family: Option<int>, toLen: nat, sent: Sys)
    returns (y: Reply, packet: seq<Byte>)
    requires domain.Some? ==> NoNul(domain.value)
    requires fd > 0 && domain.Some? && family == Some(AF_INET) && toLen != 0 ==>
      DNS_HEADER_LEN + 2 * (|domain.value| + 6) <= UDP_PACKAGE_LEN_MAX
    ensures !(fd > 0 && domain.Some? && family.Some? && toLen != 0) ==>
      packet == [] && y == RejectedRequest(domain)
    ensures fd > 0 && domain.Some? && family == Some(AF_INET) && toLen != 0 ==>
      y == Returning(SendResult(sent)) && |packet| == RequestLen(domain.value)
    ensures fd > 0 && domain.Some? && family == Some(AF_INET) && toLen != 0 && ShortLabels(domain.value) ==>
      packet == Header() + QName(domain.value) + TypeClass(DNS_RR_TYPE_A) + QName(domain.value) + TypeClass(DNS_RR_TYPE_AAAA)
    ensures fd > 0 && domain.Some? && family == Some(AF_INET6) && toLen != 0 ==>
      y == Returning(ReturnErr(ENOSYS)) && packet == []
    ensures fd > 0 && domain.Some? && family.Some? && family.value != AF_INET && family.value != AF_INET6 && toLen != 0 ==>
      y == Returning(ReturnErr(EFAULT)) && packet == []
  {
    packet := [];
    if fd > 0 && domain.Some? && family.Some? && toLen != 0 {
    } else {
      return RejectedRequest(domain), [];
    }
    if family.value == AF_INET {
      var r;
      r, packet := Inet4Send(domain.value, sent);
      return Returning(r), packet;
    } else if family.value == AF_INET6 {
      return Returning(ReturnErr(ENOSYS)), [];
    }
    return Returning(ReturnErr(EFAULT)), [];
  }

  // ---------------------------------------------------------------- the length check

  /** As written, the length check sits on the refusal path: a domain the argument check lets through is never measured. */
  lemma LongDomainOverflows(domain: seq<Byte>)
    requires ShortLabels(domain) && |domain| > 728
    ensures RequestLen(domain) > UDP_PACKAGE_LEN_MAX
    ensures RejectedRequest(Some(domain)) == Returning(ReturnErr(ENAMETOOLONG))
  {
    QNameLength(domain);
  }

  /** A label inside a name of at most 255 bytes cannot reach 256 characters. */
  lemma {:induction false} ShortWithin(rest: seq<Byte>, count: nat)
    requires count + |rest| < 256
    ensures ShortFrom(rest, count)
    decreases |rest|
  {
    if rest != [] {
      if rest[0] == DOT {
        ShortWithin(rest[1..], 0);
      } else {
        ShortWithin(rest[1..], count + 1);
      }
    }
  }

  /**
   * `AMCDns_WriteRequest` with the length check as evidently intended: an
   * over-long domain is refused whatever the other arguments, and a NULL
   * domain is refused without being measured.  Every request it sends then
   * fits the buffer, and its labels never wrap.
   */
  method WriteRequestChecked(fd: CInt, domain: Option<seq<Byte>>, family: Option<int>, toLen: nat, sent: Sys)
    returns (y: Reply, packet: seq<Byte>)
    requires domain.Some? ==> NoNul(domain.value)
    ensures domain.Some? && |domain.value| > DNS_DOMAIN_LEN_MAX ==>
      y == Returning(ReturnErr(ENAMETOOLONG)) && packet == []
    ensures (domain.None? || |domain.value| <= DNS_DOMAIN_LEN_MAX) && !(fd > 0 && domain.Some? && family.Some? && toLen != 0) ==>
      y == Returning(ReturnErr(EINVAL)) && packet == []
    ensures fd > 0 && domain.Some? && |domain.value| <= DNS_DOMAIN_LEN_MAX && family == Some(AF_INET) && toLen != 0 ==>
      y == Returning(SendResult(sent)) &&
      |packet| == RequestLen(domain.value) <= UDP_PACKAGE_LEN_MAX &&
      packet == Header() + QName(domain.value) + TypeClass(DNS_RR_TYPE_A) + QName(domain.value) + TypeClass(DNS_RR_TYPE_AAAA)
    ensures fd > 0 && domain.Some? && |domain.value| <= DNS_DOMAIN_LEN_MAX && family == Some(AF_INET6) && toLen != 0 ==>
      y == Returning(ReturnErr(ENOSYS)) && packet == []
    ensures (fd > 0 && domain.Some? && |domain.value| <= DNS_DOMAIN_LEN_MAX && toLen != 0 &&
             family.Some? && family.value != AF_INET && family.value != AF_INET6) ==>
      y == Returning(ReturnErr(EFAULT)) && packet == []
  {
    packet := [];
    if domain.Some? && |domain.value| > DNS_DOMAIN_LEN_MAX {
      return Returning(ReturnErr(ENAMETOOLONG)), [];
    }
    if !(fd > 0 && domain.Some? && family.Some? && toLen != 0) {
      return Returning(ReturnErr(EINVAL)), [];
    }
    if family.value == AF_INET {
      ShortWithin(domain.value, 0);
      QNameLength(domain.value);
      var r;
      r, packet := Inet4Send(domain.value, sent);
      return Returning(r), packet;
    } else if family.value == AF_INET6 {
      return Returning(ReturnErr(ENOSYS)), [];
    }
    return Returning(ReturnErr(EFAULT)), [];
  }
}

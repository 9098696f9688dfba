/**
 Packet framing of the GDB Remote Serial Protocol (appendix "GDB Remote Serial Protocol" of the GDB manual,
 section "Overview"): `$`, the payload, `#` and a two-digit checksum modulo 256, received from a socket in
 arbitrary chunks and sent by arbitrary partial sends.
 */
module Framing {
  import opened Wrappers
  import opened MemoryMap
  import Hex

  const DOLLAR: Byte := 36
  const HASH: Byte := 35
  const ACK: Byte := 43
  const NACK: Byte := 45
  const BUFFER_SIZE: nat := 512
  const SIZE_MAX_PLUS_ONE: nat := 0x1_0000_0000_0000_0000

  // ---------- the frame ----------

  function Sum(p: seq<Byte>): nat {
    if p == [] then 0 else Sum(p[..|p| - 1]) + p[|p| - 1]
  }

  function Checksum(p: seq<Byte>): Byte {
    Sum(p) % 256
  }

  /** The character of a lower-case hexadecimal digit. */
  function DigitChar(d: nat): Byte
    requires d < 16
  {
    Hex.HexChar(d) as int
  }

  /** The value of a digit character, in either case. */
  function DigitOf(c: Byte): Option<nat> {
    if Hex.IsHex(c as char) then Some(Hex.Digit(c as char)) else None
  }

  function Frame(p: seq<Byte>): seq<Byte> {
    var c := Checksum(p);
    [DOLLAR] + p + [HASH, DigitChar(c / 16), DigitChar(c % 16)]
  }

  /** The sum is the sum: of one byte that byte, of a text the sums of its parts. */
  lemma {:induction false} SumOfParts(p: seq<Byte>, q: seq<Byte>, b: Byte)
    ensures Sum([]) == 0 && Sum([b]) == b
    ensures Sum(p + q) == Sum(p) + Sum(q)
    decreases |q|
  {
    assert [b][..0] == [];
    if q == [] {
      assert p + q == p;
    } else {
      var n := |q| - 1;
      assert (p + q)[..|p| + n] == p + q[..n];
      SumOfParts(p, q[..n], b);
    }
  }

  /** A frame is `$`, the payload, `#` and two lower-case digits that spell the payload's sum modulo 256. */
  lemma FrameSpells(p: seq<Byte>)
    ensures var f := Frame(p);
            && |f| == |p| + 4 && f[0] as char == '$' && f[1..|p| + 1] == p && f[|p| + 1] as char == '#'
            && f[|p| + 2] as char == "0123456789abcdef"[Sum(p) % 256 / 16]
            && f[|p| + 3] as char == "0123456789abcdef"[Sum(p) % 256 % 16]
  {
    Hex.DigitsAreUsual(Checksum(p) / 16);
    Hex.DigitsAreUsual(Checksum(p) % 16);
  }

  /** What `from_chars` makes of two characters: the digits it finds, or nothing if the first is none. */
  function FromChars(hi: Byte, lo: Byte): Option<nat> {
    match (DigitOf(hi), DigitOf(lo))
    case (None, _) => None
    case (Some(h), None) => Some(h)
    case (Some(h), Some(l)) => Some(16 * h + l)
  }

  lemma ChecksumDigits(c: Byte)
    ensures FromChars(DigitChar(c / 16), DigitChar(c % 16)) == Some(c)
  {
  }

  // ---------- receiving ----------

  datatype Result = Received(payload: seq<Byte>) | Rejected | Waiting

  function Flat(chunks: seq<seq<Byte>>): seq<Byte> {
    if chunks == [] then [] else Flat(chunks[..|chunks| - 1]) + chunks[|chunks| - 1]
  }

  /** What the socket delivers: nonempty reads that fit the buffer, the first of at least three bytes. */
  ghost predicate Deliverable(chunks: seq<seq<Byte>>) {
    && (forall i :: 0 <= i < |chunks| ==> chunks[i] != [])
    && (chunks != [] ==> |chunks[0]| >= 3)
    && |Flat(chunks)| <= BUFFER_SIZE
  }

  /** After `n` reads the third byte from the end is a `#`. */
  ghost predicate StopsAt(chunks: seq<seq<Byte>>, n: nat)
    requires n <= |chunks|
  {
    var f := Flat(chunks[..n]);
    |f| >= 3 && f[|f| - 3] == HASH
  }

  /** The bytes between the first byte and the checksum field. */
  function PayloadOf(f: seq<Byte>): seq<Byte>
    requires |f| >= 3
  {
    if |f| < 4 then f[1..] else f[1..|f| - 3]
  }

  /** The verdict on a frame. A checksum that is no number is compared as an unknown value. */
  ghost predicate Judged(f: seq<Byte>, r: Result)
    requires |f| >= 3
  {
    match FromChars(f[|f| - 2], f[|f| - 1])
    case Some(c) => r == if c == Checksum(PayloadOf(f)) then Received(PayloadOf(f)) else Rejected
    case None => r == Received(PayloadOf(f)) || r == Rejected
  }

  /** Reading goes on to the first read that ends a frame; that frame is judged. */
  ghost predicate Receives(chunks: seq<seq<Byte>>, r: Result) {
    if r == Waiting then forall n :: 1 <= n <= |chunks| ==> !StopsAt(chunks, n)
    else exists n :: 1 <= n <= |chunks| && StopsAt(chunks, n) && Judged(Flat(chunks[..n]), r)
                     && forall k :: 1 <= k < n ==> !StopsAt(chunks, k)
  }

  lemma {:induction false} FlatGrows(chunks: seq<seq<Byte>>, k: nat, n: nat)
    requires k <= n <= |chunks|
    ensures Flat(chunks[..k]) <= Flat(chunks[..n])
    ensures (forall i :: 0 <= i < |chunks| ==> chunks[i] != []) && k < n ==> |Flat(chunks[..k])| < |Flat(chunks[..n])|
    decreases n
  {
    if k < n {
      FlatGrows(chunks, k, n - 1);
      FlatExtends(chunks, n - 1);
    }
  }

  lemma FlatExtends(chunks: seq<seq<Byte>>, n: nat)
    requires n < |chunks|
    ensures Flat(chunks[..n + 1]) == Flat(chunks[..n]) + chunks[n]
  {
    assert chunks[..n + 1][..n] == chunks[..n];
  }

  lemma FirstRead(chunks: seq<seq<Byte>>, n: nat)
    requires Deliverable(chunks) && 1 <= n <= |chunks|
    ensures |Flat(chunks[..n])| >= 3
  {
    FlatExtends(chunks, 0);
    FlatGrows(chunks, 1, n);
  }

  lemma NextRead(chunks: seq<seq<Byte>>, n: nat)
    requires Deliverable(chunks) && n < |chunks|
    ensures Flat(chunks[..n + 1]) == Flat(chunks[..n]) + chunks[n]
    ensures 3 <= |Flat(chunks[..n + 1])| <= BUFFER_SIZE
  {
    FlatExtends(chunks, n);
    FlatGrows(chunks, n + 1, |chunks|);
    FirstRead(chunks, n + 1);
    assert chunks[..|chunks|] == chunks;
  }

  // ---------- any chunking ----------

  /** A text of a first byte, a body and a checksum field, with no `#` before the field. */
  function Framed(first: Byte, body: seq<Byte>, hi: Byte, lo: Byte): seq<Byte> {
    [first] + body + [HASH, hi, lo]
  }

  /** However such a text is cut into reads, reading stops exactly at its end. */
  lemma StopsOnlyAtTheEnd(first: Byte, body: seq<Byte>, hi: Byte, lo: Byte, chunks: seq<seq<Byte>>, n: nat)
    requires Deliverable(chunks) && Flat(chunks) == Framed(first, body, hi, lo)
    requires first != HASH && HASH !in body
    requires 1 <= n <= |chunks|
    ensures StopsAt(chunks, n) <==> n == |chunks|
  {
    var f := Framed(first, body, hi, lo);
    assert chunks[..|chunks|] == chunks;
    FlatGrows(chunks, n, |chunks|);
    FirstRead(chunks, n);
    var g := Flat(chunks[..n]);
    assert g[|g| - 3] == f[|g| - 3];
    if n < |chunks| {
      assert f[|g| - 3] == first || f[|g| - 3] in body;
    }
  }

  /** The receiver accepts such a text exactly when its checksum field is the sum of the body modulo 256. */
  lemma AcceptsIffChecksumMatches(
      first: Byte, body: seq<Byte>, hi: Byte, lo: Byte, chunks: seq<seq<Byte>>, r: Result)
    requires Deliverable(chunks) && Flat(chunks) == Framed(first, body, hi, lo)
    requires first != HASH && HASH !in body && FromChars(hi, lo).Some?
    requires Receives(chunks, r)
    ensures r == if FromChars(hi, lo).value == Sum(body) % 256 then Received(body) else Rejected
  {
    var f := Framed(first, body, hi, lo);
    assert chunks[..|chunks|] == chunks;
    assert |chunks| >= 1;
    forall n | 1 <= n <= |chunks| ensures StopsAt(chunks, n) <==> n == |chunks| {
      StopsOnlyAtTheEnd(first, body, hi, lo, chunks, n);
    }
    assert PayloadOf(f) == body;
    assert StopsAt(chunks, |chunks|) && r != Waiting;
    var n :| 1 <= n <= |chunks| && StopsAt(chunks, n) && Judged(Flat(chunks[..n]), r);
    assert chunks[..n] == chunks;
  }

  /** What was framed is received, in whatever chunks it arrives. */
  lemma FramingRoundTrip(p: seq<Byte>, chunks: seq<seq<Byte>>, r: Result)
    requires HASH !in p && Deliverable(chunks) && Flat(chunks) == Frame(p)
    requires Receives(chunks, r)
    ensures r == Received(p)
  {
    var c := Checksum(p);
    ChecksumDigits(c);
    AcceptsIffChecksumMatches(DOLLAR, p, DigitChar(c / 16), DigitChar(c % 16), chunks, r);
  }

  lemma {:induction false} SumOfSubstitution(p: seq<Byte>, i: nat, b: Byte)
    requires i < |p|
    ensures Sum(p[i := b]) == Sum(p) - p[i] + b
  {
    var n := |p| - 1;
    var q := p[i := b];
    if i < n {
      SumOfSubstitution(p[..n], i, b);
      assert q[..n] == p[..n][i := b];
    } else {
      assert q[..n] == p[..n];
    }
  }

  lemma ChecksumOfSubstitution(p: seq<Byte>, i: nat, b: Byte)
    requires i < |p| && b != p[i]
    ensures Checksum(p[i := b]) != Checksum(p)
  {
    SumOfSubstitution(p, i, b);
    assert Sum(p[i := b]) == Sum(p) + (b - p[i]);
  }

  /** A frame with one payload byte changed is rejected, in whatever chunks it arrives. */
  lemma SubstitutionIsRejected(p: seq<Byte>, i: nat, b: Byte, chunks: seq<seq<Byte>>, r: Result)
    requires i < |p| && HASH !in p && b != HASH && b != p[i]
    requires Deliverable(chunks) && Flat(chunks) == Frame(p)[1 + i := b]
    requires Receives(chunks, r)
    ensures r == Rejected
  {
    var c := Checksum(p);
    var q := p[i := b];
    ChecksumDigits(c);
    ChecksumOfSubstitution(p, i, b);
    assert Frame(p)[1 + i := b] == Framed(DOLLAR, q, DigitChar(c / 16), DigitChar(c % 16));
    AcceptsIffChecksumMatches(DOLLAR, q, DigitChar(c / 16), DigitChar(c % 16), chunks, r);
  }

  // ---------- the packet object ----------

  class Packet {
    const m_buffer: array<Byte>

    constructor ()
      ensures fresh(m_buffer) && m_buffer.Length == BUFFER_SIZE
    {
      m_buffer := new Byte[BUFFER_SIZE];
    }

    /** Receive a packet from the reads `chunks`; `sent` is the acknowledgement written back. */
    method Rx(chunks: seq<seq<Byte>>, acknowledge: bool) returns (r: Result, sent: seq<Byte>)
      requires m_buffer.Length == BUFFER_SIZE && Deliverable(chunks)
      modifies m_buffer
      ensures Receives(chunks, r)
      ensures sent == if !acknowledge || r == Waiting then [] else if r == Rejected then ['-' as int] else ['+' as int]
    {
      sent := [];
      var size: nat, n: nat := 0, 0;
      assert Flat(chunks[..0]) == [];
      var more := true;
      while more
        invariant n <= |chunks| && size <= BUFFER_SIZE
        invariant m_buffer[..size] == Flat(chunks[..n])
        invariant more ==> forall k :: 1 <= k <= n ==> !StopsAt(chunks, k)
        invariant !more ==> 1 <= n && StopsAt(chunks, n) && forall k :: 1 <= k < n ==> !StopsAt(chunks, k)
        decreases |chunks| - n, more
      {
        if n == |chunks| {
          return Waiting, [];
        }
        NextRead(chunks, n);
        Store(size, chunks[n]);
        size, n := size + |chunks[n]|, n + 1;
        more := m_buffer[size - 3] != HASH;
      }
      r := Judge(m_buffer[..size]);
      if acknowledge {
        sent := if r == Rejected then [NACK] else [ACK];
      }
    }

    method Store(at: nat, chunk: seq<Byte>)
      requires at + |chunk| <= m_buffer.Length
      modifies m_buffer
      ensures m_buffer[..at + |chunk|] == old(m_buffer[..at]) + chunk
    {
      forall j | 0 <= j < |chunk| {
        m_buffer[at + j] := chunk[j];
      }
    }

    /** Send a packet by partial sends of any positive size; a NACK in reply makes the call fail. */
    method Tx(payload: seq<Byte>, acknowledge: bool, reply: Byte) returns (wire: seq<Byte>, failed: bool)
      ensures wire == Frame(payload)
      ensures failed <==> acknowledge && reply as char == '-'
    {
      var packet := Frame(payload);
      var size := 0;
      wire := [];
      while size < |packet|
        invariant size <= |packet| && wire == packet[..size]
      {
        var status :| 1 <= status <= |packet| - size;
        wire := wire + packet[size..size + status];
        size := size + status;
      }
      failed := acknowledge && reply == NACK;
    }
  }

  /** Split a received text and compare the checksums. */
  method Judge(packet: seq<Byte>) returns (r: Result)
    requires 3 <= |packet| <= BUFFER_SIZE
    ensures Judged(packet, r) && r != Waiting
  {
    var size := |packet|;
    // the length argument is an unsigned 64-bit subtraction, clipped to what is left of the text
    var count := (size + SIZE_MAX_PLUS_ONE - 4) % SIZE_MAX_PLUS_ONE;
    var data := packet[1..1 + if count < size - 1 then count else size - 1];
    assert count == if size < 4 then SIZE_MAX_PLUS_ONE - 1 else size - 4;
    assert data == PayloadOf(packet);
    var reference := Checksum(data);
    var parsed := FromChars(packet[size - 2], packet[size - 1]);
    var unknown: nat := *;
    var checksum := if parsed.Some? then parsed.value else unknown;
    r := if checksum == reference then Received(data) else Rejected;
  }
}

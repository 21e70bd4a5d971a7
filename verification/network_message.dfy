/** The cursor codec of a network message (networkmessage.h, class
    NetworkMessage, inline members only).

    A message is a fixed-size byte buffer with a cursor `readPos` and a
    length `size`. The first 4 bytes are left for the packet header, so an
    empty message has its cursor at 4. Writes check that the cursor stays 16
    bytes short of the end of the buffer and silently drop a value that does
    not fit; reads check nothing. Multi-byte values are stored through a
    pointer cast, which on the little-endian hosts the server runs on puts
    the least significant byte first. The buffer size
    `NETWORKMESSAGE_MAXSIZE` is defined elsewhere; here it is the length of
    `buf`. */
module NetworkMessages {
  import opened Bytes

  type u16 = x: int | 0 <= x < 0x1_0000
  type u32 = x: int | 0 <= x < 0x1_0000_0000

  datatype Message = Message(
    buf: seq<byte>,
    size: int,
    readPos: int,
    encryptionEnabled: bool,
    keySet: bool,
    key: seq<u32>)

  /** Bytes the write check keeps free at the end of the buffer. */
  const Reserve := 16

  /** Bytes before the first payload byte. */
  const HeaderSize := 4

  // ---------------------------------------------------------------------
  // Little-endian integers
  // ---------------------------------------------------------------------

  function Pow256(n: nat): (r: nat)
    ensures r > 0
  {
    if n == 0 then 1 else 256 * Pow256(n - 1)
  }

  /** The `n` bytes of `v`, least significant first. */
  function LE(v: nat, n: nat): (bs: seq<byte>)
    ensures |bs| == n
  {
    if n == 0 then [] else [v % 256] + LE(v / 256, n - 1)
  }

  /** The number whose little-endian bytes are `bs`. */
  function FromLE(bs: seq<byte>): (v: nat)
    ensures v < Pow256(|bs|)
  {
    if |bs| == 0 then 0 else bs[0] + 256 * FromLE(bs[1..])
  }

  /** Encoding and decoding are inverse for every value that fits. */
  lemma {:induction false} FromLEOfLE(v: nat, n: nat)
    requires v < Pow256(n)
    ensures FromLE(LE(v, n)) == v
  {
    if n > 0 {
      var bs := LE(v, n);
      assert bs[1..] == LE(v / 256, n - 1);
      FromLEOfLE(v / 256, n - 1);
    }
  }

  /** Four little-endian bytes spelled out. */
  lemma FromLE4(b0: byte, b1: byte, b2: byte, b3: byte)
    ensures FromLE([b0, b1, b2, b3]) == b0 as int + 256 * (b1 as int + 256 * (b2 as int + 256 * (b3 as int)))
    ensures FromLE([b0, b1, b2, b3]) < 0x1_0000_0000
  {
    assert [b3][1..] == [];
    assert FromLE([b3]) == b3;
    assert [b2, b3][1..] == [b3];
    assert FromLE([b2, b3]) == b2 as int + 256 * (b3 as int);
    assert [b1, b2, b3][1..] == [b2, b3];
    assert FromLE([b1, b2, b3]) == b1 as int + 256 * FromLE([b2, b3]);
    assert [b0, b1, b2, b3][1..] == [b1, b2, b3];
  }

  /** `buf` with `bs` written from index `p` on. */
  function Put(buf: seq<byte>, p: nat, bs: seq<byte>): (r: seq<byte>)
    requires p + |bs| <= |buf|
    ensures |r| == |buf|
    ensures forall i :: 0 <= i < |buf| && !(p <= i < p + |bs|) ==> r[i] == buf[i]
    ensures r[p..p + |bs|] == bs
  {
    buf[..p] + bs + buf[p + |bs|..]
  }

  // ---------------------------------------------------------------------
  // Construction, state queries and keys
  // ---------------------------------------------------------------------

  /** The constructor. The buffer and the key array are not initialised by
      the server, so their contents are parameters. */
  function New(buf: seq<byte>, key: seq<u32>): (m: Message)
    ensures m.buf == buf && m.key == key
    ensures m.size == 0 && m.readPos == HeaderSize
    ensures !m.encryptionEnabled && !m.keySet
  {
    Reset(Message(buf, 0, 0, false, false, key))
  }

  /** `Reset`: an empty message again; the bytes stay where they are. */
  function Reset(m: Message): (r: Message)
    ensures r.size == 0 && r.readPos == HeaderSize
    ensures r.buf == m.buf
    ensures r.(size := m.size, readPos := m.readPos) == m
  {
    m.(size := 0, readPos := HeaderSize)
  }

  /** `getMessageLength`. */
  function MessageLength(m: Message): int {
    m.size
  }

  /** `empty`. */
  predicate IsEmpty(m: Message) {
    m.size == 0
  }

  /** A message is empty exactly when it reports length 0, which a reset
      message does whatever it held before. */
  lemma EmptyIffNoLength(m: Message)
    ensures IsEmpty(m) <==> MessageLength(m) == 0
    ensures IsEmpty(Reset(m)) && MessageLength(Reset(m)) == 0
  {
  }

  /** `setEncryptionKey`: copies the four key words and marks the key set. */
  function SetEncryptionKey(m: Message, key: seq<u32>): (r: Message)
    requires |key| == 4
    ensures r.keySet && r.key == key
    ensures r.(keySet := m.keySet, key := m.key) == m
  {
    m.(key := key, keySet := true)
  }

  /** `setEncryptionState`. */
  function SetEncryptionState(m: Message, state: bool): (r: Message)
    ensures r.encryptionEnabled == state
    ensures r.(encryptionEnabled := m.encryptionEnabled) == m
  {
    m.(encryptionEnabled := state)
  }

  // ---------------------------------------------------------------------
  // Writing
  // ---------------------------------------------------------------------

  /** `canAdd`: the cursor after the write stays short of the reserve. */
  predicate CanAdd(m: Message, n: int) {
    n + m.readPos < |m.buf| - Reserve
  }

  /** The common shape of the three writes: drop the value if it does not
      fit, else store its bytes at the cursor and advance cursor and size. */
  function Append(m: Message, bs: seq<byte>): (r: Message)
    requires 0 <= m.readPos
    ensures !CanAdd(m, |bs|) ==> r == m
    ensures CanAdd(m, |bs|) ==>
              && |r.buf| == |m.buf|
              && r.buf[m.readPos..m.readPos + |bs|] == bs
              && (forall i :: 0 <= i < |m.buf| && !(m.readPos <= i < m.readPos + |bs|) ==> r.buf[i] == m.buf[i])
              && r.readPos == m.readPos + |bs| && r.size == m.size + |bs|
              && r.readPos < |m.buf| - Reserve
              && r.(buf := m.buf, readPos := m.readPos, size := m.size) == m
  {
    if !CanAdd(m, |bs|) then m
    else m.(buf := Put(m.buf, m.readPos, bs), readPos := m.readPos + |bs|, size := m.size + |bs|)
  }

  /** `AddByte`. */
  function AddByte(m: Message, v: byte): (r: Message)
    requires 0 <= m.readPos
    ensures |r.buf| == |m.buf|
    ensures !CanAdd(m, 1) ==> r == m
    ensures CanAdd(m, 1) ==> r.buf == m.buf[m.readPos := v] && r.readPos == m.readPos + 1 && r.size == m.size + 1
    ensures CanAdd(m, 1) ==> r.(buf := m.buf, readPos := m.readPos, size := m.size) == m
  {
    var r := Append(m, [v]);
    assert CanAdd(m, 1) ==> r.buf == m.buf[m.readPos := v] by {
      if CanAdd(m, 1) {
        assert r.buf[m.readPos] == r.buf[m.readPos..m.readPos + 1][0];
      }
    }
    r
  }

  /** `AddU16`: two bytes, low byte first. */
  function AddU16(m: Message, v: u16): (r: Message)
    requires 0 <= m.readPos
    ensures |r.buf| == |m.buf|
    ensures !CanAdd(m, 2) ==> r == m
    ensures CanAdd(m, 2) ==> r.buf[m.readPos..m.readPos + 2] == LE(v, 2) && r.readPos == m.readPos + 2 && r.size == m.size + 2
    ensures CanAdd(m, 2) ==> forall i :: 0 <= i < |m.buf| && !(m.readPos <= i < m.readPos + 2) ==> r.buf[i] == m.buf[i]
    ensures CanAdd(m, 2) ==> r.(buf := m.buf, readPos := m.readPos, size := m.size) == m
  {
    Append(m, LE(v, 2))
  }

  /** `AddU32`: four bytes, low byte first. */
  function AddU32(m: Message, v: u32): (r: Message)
    requires 0 <= m.readPos
    ensures |r.buf| == |m.buf|
    ensures !CanAdd(m, 4) ==> r == m
    ensures CanAdd(m, 4) ==> r.buf[m.readPos..m.readPos + 4] == LE(v, 4) && r.readPos == m.readPos + 4 && r.size == m.size + 4
    ensures CanAdd(m, 4) ==> forall i :: 0 <= i < |m.buf| && !(m.readPos <= i < m.readPos + 4) ==> r.buf[i] == m.buf[i]
    ensures CanAdd(m, 4) ==> r.(buf := m.buf, readPos := m.readPos, size := m.size) == m
  {
    Append(m, LE(v, 4))
  }

  // ---------------------------------------------------------------------
  // Reading
  // ---------------------------------------------------------------------

  /** The cursor and `n` bytes after it lie in the buffer: what every read
      needs, and what the server does not check. */
  predicate CanRead(m: Message, n: nat) {
    0 <= m.readPos && m.readPos + n <= |m.buf|
  }

  /** `GetByte`. */
  function GetByte(m: Message): (r: (Message, byte))
    requires CanRead(m, 1)
    ensures r.0 == m.(readPos := m.readPos + 1)
    ensures r.1 == FromLE(m.buf[m.readPos..m.readPos + 1])
  {
    var bs := m.buf[m.readPos..m.readPos + 1];
    assert FromLE(bs) == bs[0] by {
      assert bs[1..] == [];
    }
    (m.(readPos := m.readPos + 1), m.buf[m.readPos])
  }

  /** `GetU16`. */
  function GetU16(m: Message): (r: (Message, u16))
    requires CanRead(m, 2)
    ensures r.0 == m.(readPos := m.readPos + 2)
    ensures r.1 == FromLE(m.buf[m.readPos..m.readPos + 2])
  {
    var p := m.readPos;
    var bs := m.buf[p..p + 2];
    assert FromLE(bs) == bs[0] as int + 256 * (bs[1] as int) by {
      assert bs[1..][1..] == [];
    }
    (m.(readPos := p + 2), m.buf[p] as int + 256 * (m.buf[p + 1] as int))
  }

  /** `GetU32`. */
  function GetU32(m: Message): (r: (Message, u32))
    requires CanRead(m, 4)
    ensures r.0 == m.(readPos := m.readPos + 4)
    ensures r.1 == FromLE(m.buf[m.readPos..m.readPos + 4])
  {
    var p := m.readPos;
    var bs := m.buf[p..p + 4];
    assert bs == [bs[0], bs[1], bs[2], bs[3]];
    FromLE4(bs[0], bs[1], bs[2], bs[3]);
    (m.(readPos := p + 4), m.buf[p] as int + 256 * (m.buf[p + 1] as int + 256 * (m.buf[p + 2] as int + 256 * (m.buf[p + 3] as int))))
  }

  /** `SkipBytes`: moves the cursor by `count`, which may be negative. */
  function SkipBytes(m: Message, count: int): (r: Message)
    ensures r.readPos - m.readPos == count
    ensures r.(readPos := m.readPos) == m
  {
    m.(readPos := m.readPos + count)
  }

  // ---------------------------------------------------------------------
  // Sequences of writes and reads
  // ---------------------------------------------------------------------

  datatype Scalar = Byte(b: byte) | U16(w: u16) | U32(d: u32)

  datatype Shape = ByteShape | U16Shape | U32Shape

  function ShapeOf(x: Scalar): Shape {
    match x
    case Byte(_) => ByteShape
    case U16(_) => U16Shape
    case U32(_) => U32Shape
  }

  function Width(s: Shape): nat {
    match s
    case ByteShape => 1
    case U16Shape => 2
    case U32Shape => 4
  }

  function Shapes(xs: seq<Scalar>): (ss: seq<Shape>)
    ensures |ss| == |xs|
  {
    if |xs| == 0 then [] else [ShapeOf(xs[0])] + Shapes(xs[1..])
  }

  function TotalWidth(ss: seq<Shape>): nat {
    if |ss| == 0 then 0 else Width(ss[0]) + TotalWidth(ss[1..])
  }

  /** The number a scalar carries. */
  function ScalarValue(x: Scalar): (v: nat)
    ensures v < Pow256(Width(ShapeOf(x)))
  {
    assert Pow256(1) == 0x100 && Pow256(2) == 0x1_0000;
    assert Pow256(4) == 0x1_0000_0000 by { assert Pow256(3) == 0x100_0000; }
    match x
    case Byte(v) => v
    case U16(v) => v
    case U32(v) => v
  }

  /** The scalar of the given shape carrying `v`. */
  function ScalarOf(s: Shape, v: nat): (x: Scalar)
    requires v < Pow256(Width(s))
    ensures ShapeOf(x) == s && ScalarValue(x) == v
  {
    assert Pow256(1) == 0x100 && Pow256(2) == 0x1_0000;
    assert Pow256(4) == 0x1_0000_0000 by { assert Pow256(3) == 0x100_0000; }
    match s
    case ByteShape => Byte(v)
    case U16Shape => U16(v)
    case U32Shape => U32(v)
  }

  /** The write of one scalar: its bytes, least significant first, through
      the common check. Lemma AddIsTheWrite shows it is `AddByte`, `AddU16`
      or `AddU32`. */
  function Add(m: Message, x: Scalar): Message
    requires 0 <= m.readPos
  {
    Append(m, LE(ScalarValue(x), Width(ShapeOf(x))))
  }

  lemma AddIsTheWrite(m: Message, x: Scalar)
    requires 0 <= m.readPos
    ensures Add(m, x) == match x
                         case Byte(v) => AddByte(m, v)
                         case U16(v) => AddU16(m, v)
                         case U32(v) => AddU32(m, v)
  {
    if x.Byte? {
      assert LE(x.b, 1) == [x.b];
    }
  }

  /** A sequence of writes, in order. */
  function AddAll(m: Message, xs: seq<Scalar>): (r: Message)
    requires 0 <= m.readPos
    ensures m.readPos <= r.readPos && |r.buf| == |m.buf|
    ensures r.readPos - m.readPos == r.size - m.size
    ensures r.(buf := m.buf, readPos := m.readPos, size := m.size) == m
    decreases |xs|
  {
    if |xs| == 0 then m else AddAll(Add(m, xs[0]), xs[1..])
  }

  /** The read of one scalar of the given shape. Lemma GetIsTheRead shows
      it is `GetByte`, `GetU16` or `GetU32`. */
  function Get(m: Message, s: Shape): (r: (Message, Scalar))
    requires CanRead(m, Width(s))
    ensures r.0 == m.(readPos := m.readPos + Width(s))
  {
    var p := m.readPos;
    (m.(readPos := p + Width(s)), ScalarOf(s, FromLE(m.buf[p..p + Width(s)])))
  }

  lemma GetIsTheRead(m: Message, s: Shape)
    requires CanRead(m, Width(s))
    ensures Get(m, s) == match s
                         case ByteShape => (GetByte(m).0, Byte(GetByte(m).1))
                         case U16Shape => (GetU16(m).0, U16(GetU16(m).1))
                         case U32Shape => (GetU32(m).0, U32(GetU32(m).1))
  {
    if s == ByteShape {
      var bs := m.buf[m.readPos..m.readPos + 1];
      assert bs[1..] == [];
    }
  }

  /** A sequence of reads of the given shapes, in order. */
  function GetAll(m: Message, ss: seq<Shape>): (r: (Message, seq<Scalar>))
    requires CanRead(m, TotalWidth(ss))
    decreases |ss|
  {
    if |ss| == 0 then (m, [])
    else
      var (m1, x) := Get(m, ss[0]);
      var (m2, xs) := GetAll(m1, ss[1..]);
      (m2, [x] + xs)
  }

  /** One value written and read back at the same place is the same value:
      the writes and the reads agree on the byte order. */
  lemma GetAfterAdd(m: Message, x: Scalar, m2: Message)
    requires 0 <= m.readPos && CanAdd(m, Width(ShapeOf(x)))
    requires |m2.buf| == |m.buf|
    requires m2.buf[m.readPos..m.readPos + Width(ShapeOf(x))] ==
             Add(m, x).buf[m.readPos..m.readPos + Width(ShapeOf(x))]
    ensures Get(m2.(readPos := m.readPos), ShapeOf(x)).1 == x
  {
    FromLEOfLE(ScalarValue(x), Width(ShapeOf(x)));
  }

  /** Any sequence of writes that all fit reads back, from the cursor where
      writing started, as the same sequence, leaving the cursor where
      writing stopped. */
  lemma {:induction false} AddAllReadsBack(m: Message, xs: seq<Scalar>)
    requires 0 <= m.readPos
    requires m.readPos + TotalWidth(Shapes(xs)) < |m.buf| - Reserve
    ensures ReadsBack(m, xs)
    decreases |xs|
  {
    if |xs| > 0 {
      AddAllCons(m, xs);
      AddAccepted(m, xs[0]);
      AddAllReadsBack(Add(m, xs[0]), xs[1..]);
      ReadsBackCons(m, xs);
    }
  }

  /** Reading the shapes of `xs` back from where writing `xs` started gives
      `xs`, and leaves the cursor where writing stopped. */
  predicate ReadsBack(m: Message, xs: seq<Scalar>)
    requires 0 <= m.readPos
  {
    var m2 := AddAll(m, xs);
    && m2.readPos == m.readPos + TotalWidth(Shapes(xs))
    && CanRead(m2.(readPos := m.readPos), TotalWidth(Shapes(xs)))
    && GetAll(m2.(readPos := m.readPos), Shapes(xs)) == (m2, xs)
  }

  lemma ReadsBackCons(m: Message, xs: seq<Scalar>)
    requires 0 <= m.readPos && |xs| > 0 && CanAdd(m, Width(ShapeOf(xs[0])))
    requires ReadsBack(Add(m, xs[0]), xs[1..])
    ensures ReadsBack(m, xs)
  {
    var x, rest := xs[0], xs[1..];
    var m1 := Add(m, x);
    AddAllCons(m, xs);
    AddAccepted(m, x);
    var m2 := AddAll(m1, rest);
    AddAllKeepsPrefix(m1, rest, m.readPos, Width(ShapeOf(x)));
    ReadsBackStep(m, x, m2, Shapes(rest), rest);
    assert [x] + rest == xs;
  }

  /** How a non-empty run of writes and its shapes unfold. */
  lemma AddAllCons(m: Message, xs: seq<Scalar>)
    requires 0 <= m.readPos && |xs| > 0
    ensures AddAll(m, xs) == AddAll(Add(m, xs[0]), xs[1..])
    ensures Shapes(xs) == [ShapeOf(xs[0])] + Shapes(xs[1..])
    ensures TotalWidth(Shapes(xs)) == Width(ShapeOf(xs[0])) + TotalWidth(Shapes(xs[1..]))
  {
    assert Shapes(xs)[1..] == Shapes(xs[1..]);
  }

  /** The step of the round trip: if the first value's bytes are still in
      place and the rest reads back from where the first value ends, the
      whole run reads back. */
  lemma ReadsBackStep(m: Message, x: Scalar, m2: Message, rest: seq<Shape>, xs: seq<Scalar>)
    requires 0 <= m.readPos && CanAdd(m, Width(ShapeOf(x)))
    requires |m2.buf| == |m.buf|
    requires m2.buf[m.readPos..m.readPos + Width(ShapeOf(x))] ==
             Add(m, x).buf[m.readPos..m.readPos + Width(ShapeOf(x))]
    requires CanRead(m2.(readPos := m.readPos + Width(ShapeOf(x))), TotalWidth(rest))
    requires GetAll(m2.(readPos := m.readPos + Width(ShapeOf(x))), rest) == (m2, xs)
    ensures GetAll(m2.(readPos := m.readPos), [ShapeOf(x)] + rest) == (m2, [x] + xs)
  {
    var start := m2.(readPos := m.readPos);
    GetAfterAdd(m, x, m2);
    GetAllCons(start, ShapeOf(x), rest);
  }

  /** Writes leave the bytes before the cursor alone. */
  lemma {:induction false} AddAllKeepsPrefix(m: Message, xs: seq<Scalar>, p: nat, w: nat)
    requires 0 <= m.readPos && p + w <= m.readPos && m.readPos <= |m.buf|
    ensures AddAll(m, xs).buf[p..p + w] == m.buf[p..p + w]
    decreases |xs|
  {
    if |xs| > 0 {
      var m1 := Add(m, xs[0]);
      AddKeepsPrefix(m, xs[0], p, w);
      AddAllKeepsPrefix(m1, xs[1..], p, w);
    }
  }

  lemma AddKeepsPrefix(m: Message, x: Scalar, p: nat, w: nat)
    requires 0 <= m.readPos && p + w <= m.readPos && m.readPos <= |m.buf|
    ensures var m1 := Add(m, x);
            m.readPos <= m1.readPos <= |m1.buf| && m1.buf[p..p + w] == m.buf[p..p + w]
  {
  }

  /** A write that fits advances the cursor by its width. */
  lemma AddAccepted(m: Message, x: Scalar)
    requires 0 <= m.readPos && CanAdd(m, Width(ShapeOf(x)))
    ensures Add(m, x).readPos == m.readPos + Width(ShapeOf(x))
    ensures |Add(m, x).buf| == |m.buf|
    ensures Add(m, x).buf[m.readPos..m.readPos + Width(ShapeOf(x))] == LE(ScalarValue(x), Width(ShapeOf(x)))
  {
  }

  lemma GetAllCons(m: Message, s: Shape, ss: seq<Shape>)
    requires CanRead(m, Width(s) + TotalWidth(ss))
    ensures TotalWidth([s] + ss) == Width(s) + TotalWidth(ss)
    ensures GetAll(m, [s] + ss) ==
              var (m1, x) := Get(m, s);
              var (m2, xs) := GetAll(m1, ss);
              (m2, [x] + xs)
  {
    assert ([s] + ss)[1..] == ss;
  }

  /** The round trip the protocol code relies on: after `Reset`, any run of
      writes that fits, then `Reset` again, the reads give back the values
      written; in particular for single values 0 and the width maximum. */
  lemma ResetWriteResetRead(m: Message, xs: seq<Scalar>)
    requires HeaderSize + TotalWidth(Shapes(xs)) < |m.buf| - Reserve
    ensures var m2 := AddAll(Reset(m), xs);
            CanRead(Reset(m2), TotalWidth(Shapes(xs))) && GetAll(Reset(m2), Shapes(xs)).1 == xs
  {
    AddAllReadsBack(Reset(m), xs);
    var m2 := AddAll(Reset(m), xs);
    assert Reset(m2) == m2.(readPos := HeaderSize).(size := 0);
    GetAllIgnoresSize(m2.(readPos := HeaderSize), Shapes(xs), 0);
  }

  lemma {:induction false} GetAllIgnoresSize(m: Message, ss: seq<Shape>, size: int)
    requires CanRead(m, TotalWidth(ss))
    ensures GetAll(m.(size := size), ss).1 == GetAll(m, ss).1
    decreases |ss|
  {
    if |ss| > 0 {
      var (m1, x) := Get(m, ss[0]);
      GetIgnoresSize(m, ss[0], size);
      GetAllIgnoresSize(m1, ss[1..], size);
    }
  }

  lemma GetIgnoresSize(m: Message, s: Shape, size: int)
    requires CanRead(m, Width(s))
    ensures Get(m.(size := size), s) == (Get(m, s).0.(size := size), Get(m, s).1)
  {
  }

  /** The single-value round trips at the extremes of each width. */
  lemma ExtremeValuesRoundTrip(m: Message)
    requires HeaderSize + 4 < |m.buf| - Reserve
    ensures GetByte(Reset(AddByte(Reset(m), 0))).1 == 0
    ensures GetByte(Reset(AddByte(Reset(m), 0xFF))).1 == 0xFF
    ensures GetU16(Reset(AddU16(Reset(m), 0))).1 == 0
    ensures GetU16(Reset(AddU16(Reset(m), 0xFFFF))).1 == 0xFFFF
    ensures GetU32(Reset(AddU32(Reset(m), 0))).1 == 0
    ensures GetU32(Reset(AddU32(Reset(m), 0xFFFF_FFFF))).1 == 0xFFFF_FFFF
  {
    FromLEOfLE(0, 2);
    FromLEOfLE(0xFFFF, 2);
    FromLEOfLE(0, 4);
    FromLEOfLE(0xFFFF_FFFF, 4);
  }

  // ---------------------------------------------------------------------
  // The cursor invariant
  // ---------------------------------------------------------------------

  /** What every message built by `Reset` and writes satisfies: the cursor
      is the header plus the length, and once anything was written the
      cursor is short of the reserve. */
  predicate CursorInvariant(m: Message) {
    && m.readPos == HeaderSize + m.size
    && 0 <= m.size
    && (m.size > 0 ==> m.readPos < |m.buf| - Reserve)
  }

  lemma {:induction false} AddAllKeepsCursorInvariant(m: Message, xs: seq<Scalar>)
    requires CursorInvariant(m)
    ensures CursorInvariant(AddAll(m, xs))
    decreases |xs|
  {
    if |xs| > 0 {
      AddAllKeepsCursorInvariant(Add(m, xs[0]), xs[1..]);
    }
  }

  /** Starting from `Reset`, any run of writes keeps the cursor at the
      header plus the length. */
  lemma WritesAfterResetKeepCursor(m: Message, xs: seq<Scalar>)
    ensures CursorInvariant(AddAll(Reset(m), xs))
  {
    AddAllKeepsCursorInvariant(Reset(m), xs);
  }

  /** A dropped write is not a truncated one: a four-byte value that does
      not fit leaves no trace, and a smaller value after it is still
      written at the very same place. */
  lemma DroppedWriteLeavesNoTrace(m: Message, v: u32, b: byte)
    requires 0 <= m.readPos
    requires m.readPos + 1 < |m.buf| - Reserve <= m.readPos + 4
    ensures AddU32(m, v) == m
    ensures AddByte(AddU32(m, v), b).buf[m.readPos] == b
    ensures MessageLength(AddByte(AddU32(m, v), b)) == MessageLength(m) + 1
  {
  }
}

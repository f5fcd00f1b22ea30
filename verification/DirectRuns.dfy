/** Whole runs on one direct-access buffer: any sequence of B-P, LISTEN and TALK (src/doscmd.c, src/iec.c and
    directbuffer_refill in src/fileops.c), against a plain tape of the same bytes with one cursor. */
module DirectRuns {
  import opened Bits
  import opened Buffers

  datatype Op = Seek(high: byte, low: byte) | Write(bytes: seq<byte>) | Read(n: nat)

  // ---- The buffer -----------------------------------------------------------------------

  /** The bytes of all members, end to end, and where the buffer stands. */
  datatype Direct = Direct(ring: seq<byte>, head: Head)

  /** The ring has one page for every member. */
  ghost predicate Fits(s: Direct, count: nat) {
    |s.ring| == 256 * count && s.head.member < count
  }

  function Moved(h: Head, op: Op, count: nat): (r: Head)
    requires h.member < count
    ensures r.member < count
  {
    match op
    case Seek(high, low) => Sought(h, count, high, low)
    case Write(bytes) => WroteFollows(h, count, |bytes|); Wrote(h, count, |bytes|)
    case Read(n) => RedFollows(h, count, n); Red(h, count, n)
  }

  ghost function Step(s: Direct, op: Op, count: nat): (r: Direct)
    requires Fits(s, count)
    ensures Fits(r, count)
  {
    var ring := if op.Write? then Stored(s.ring, Following(s.head, count), op.bytes) else s.ring;
    Direct(ring, Moved(s.head, op, count))
  }

  function Sent(s: Direct, op: Op): seq<byte>
    requires |s.ring| > 0
  {
    if op.Read? then ReadAround(s.ring, Place(s.head), op.n) else []
  }

  ghost function Run(s: Direct, ops: seq<Op>, count: nat): (r: Direct)
    requires Fits(s, count)
    ensures Fits(r, count)
  {
    if ops == [] then s else Step(Run(s, ops[..|ops| - 1], count), ops[|ops| - 1], count)
  }

  /** All bytes sent. */
  ghost function Output(s: Direct, ops: seq<Op>, count: nat): seq<byte>
    requires Fits(s, count)
  {
    if ops == [] then []
    else Output(s, ops[..|ops| - 1], count) + Sent(Run(s, ops[..|ops| - 1], count), ops[|ops| - 1])
  }

  // ---- The tape -----------------------------------------------------------------------

  datatype Tape = Tape(ring: seq<byte>, cursor: nat)

  function Wound(cursor: nat, op: Op, size: nat): nat
    requires size > 0
  {
    match op
    case Seek(high, low) => (256 * high + low) % size
    case Write(bytes) => (cursor + |bytes|) % size
    case Read(n) => (cursor + n) % size
  }

  function TapeRun(t: Tape, ops: seq<Op>): (r: Tape)
    requires |t.ring| > 0
    ensures |r.ring| == |t.ring|
  {
    if ops == [] then t
    else
      var s, op := TapeRun(t, ops[..|ops| - 1]), ops[|ops| - 1];
      Tape(if op.Write? then Stored(s.ring, s.cursor, op.bytes) else s.ring, Wound(s.cursor, op, |s.ring|))
  }

  function TapeOutput(t: Tape, ops: seq<Op>): seq<byte>
    requires |t.ring| > 0
  {
    if ops == [] then []
    else
      var s, op := TapeRun(t, ops[..|ops| - 1]), ops[|ops| - 1];
      TapeOutput(t, ops[..|ops| - 1]) + if op.Read? then ReadAround(s.ring, s.cursor, op.n) else []
  }

  // ---- When the buffer is a tape ------------------------------------------------------------

  predicate MovesBytes(op: Op) {
    (op.Write? && op.bytes != []) || (op.Read? && op.n > 0)
  }

  /** The place of the first byte moved. */
  function Start(h: Head, op: Op, count: nat): nat {
    if op.Write? then Following(h, count) else Place(h)
  }

  function HeadAfter(h: Head, ops: seq<Op>, count: nat): (r: Head)
    requires h.member < count
    ensures r.member < count
  {
    if ops == [] then h else Moved(HeadAfter(h, ops[..|ops| - 1], count), ops[|ops| - 1], count)
  }

  function CursorAfter(cursor: nat, ops: seq<Op>, size: nat): nat
    requires size > 0
  {
    if ops == [] then cursor else Wound(CursorAfter(cursor, ops[..|ops| - 1], size), ops[|ops| - 1], size)
  }

  /** Every byte of a run is read and stored at the place where the tape has its cursor. */
  ghost predicate AsTape(h: Head, cursor: nat, ops: seq<Op>, count: nat)
    requires h.member < count
  {
    forall k :: 0 <= k < |ops| && MovesBytes(ops[k]) ==>
      Start(HeadAfter(h, ops[..k], count), ops[k], count) == CursorAfter(cursor, ops[..k], 256 * count)
  }

  /** The operation that goes wrong. In a large buffer: reading while mustflush is set, that is, behind a write that
      ended with the last byte of a member. In a single one: writing while mustflush is set and the position is not
      the first one. */
  predicate Misses(h: Head, op: Op, count: nat) {
    h.full && if count > 1 then op.Read? && op.n > 0 else op.Write? && op.bytes != [] && h.position != 0
  }

  ghost predicate Careful(h: Head, ops: seq<Op>, count: nat)
    requires h.member < count
  {
    forall k :: 0 <= k < |ops| ==> !Misses(HeadAfter(h, ops[..k], count), ops[k], count)
  }

  /** The cursor of a tape that stands where the buffer does. */
  function Cursor(h: Head, count: nat): nat {
    if count > 1 then Following(h, count) else Place(h)
  }

  lemma {:induction false} ReadKeepsClear(h: Head, count: nat, n: nat)
    requires !h.full
    ensures !Red(h, count, n).full
  {
    if n > 0 {
      ReadKeepsClear(h, count, n - 1);
    }
  }

  /** A single buffer wraps to its own first byte. */
  lemma WroteAlone(h: Head, n: nat)
    requires h.member == 0 && n > 0
    ensures Place(Wrote(h, 1, n)) == Following(Wrote(h, 1, n), 1)
  {
    WroteFollows(h, 1, n - 1);
  }

  lemma StaysInStep(h: Head, op: Op, count: nat)
    requires h.member < count && !Misses(h, op, count)
    ensures Cursor(Moved(h, op, count), count) == Wound(Cursor(h, count), op, 256 * count)
    ensures MovesBytes(op) ==> Start(h, op, count) == Cursor(h, count)
  {
    hide Around, Wrote, Red;
    match op
    case Seek(high, low) =>
      PositionModulo(count, high, low);
    case Write(bytes) =>
      WroteFollows(h, count, |bytes|);
      if count == 1 {
        if bytes == [] {
          Still(h, count);
        } else {
          WroteAlone(h, |bytes|);
        }
      }
    case Read(n) =>
      RedFollows(h, count, n);
      if n == 0 {
        Still(h, count);
      } else if count > 1 {
        ReadKeepsClear(h, count, n);
      }
  }

  lemma Still(h: Head, count: nat)
    requires h.member < count
    ensures Wrote(h, count, 0) == h && Red(h, count, 0) == h && Cursor(h, count) % (256 * count) == Cursor(h, count)
  {
    Remainder(Cursor(h, count), 256 * count, 0, Cursor(h, count));
  }

  lemma {:induction false} InStepUpTo(h: Head, ops: seq<Op>, count: nat)
    requires h.member < count && Careful(h, ops, count)
    ensures CursorAfter(Cursor(h, count), ops, 256 * count) == Cursor(HeadAfter(h, ops, count), count)
  {
    hide Moved, Wrote, Red, Around, Cursor, Misses, Wound, Careful;
    if ops != [] {
      var init := ops[..|ops| - 1];
      CarefulBefore(h, ops, |init|, count);
      InStepUpTo(h, init, count);
      StaysInStep(HeadAfter(h, init, count), ops[|init|], count);
    }
  }

  lemma CarefulBefore(h: Head, ops: seq<Op>, k: nat, count: nat)
    requires h.member < count && k < |ops| && Careful(h, ops, count)
    ensures Careful(h, ops[..k], count) && !Misses(HeadAfter(h, ops[..k], count), ops[k], count)
  {
    forall j | 0 <= j < k ensures !Misses(HeadAfter(h, ops[..k][..j], count), ops[..k][j], count) {
      assert ops[..k][..j] == ops[..j];
    }
  }

  lemma MissedPlace(h: Head, op: Op, count: nat)
    requires h.member < count
    ensures Misses(h, op, count) ==> MovesBytes(op) && Start(h, op, count) != Cursor(h, count)
  {}

  /** A run moves every byte where a tape does exactly when no operation of it misses. */
  lemma {:induction false} AsTapeIff(h: Head, ops: seq<Op>, count: nat)
    requires h.member < count
    ensures AsTape(h, Cursor(h, count), ops, count) <==> Careful(h, ops, count)
  {
    if Careful(h, ops, count) {
      forall k | 0 <= k < |ops| && MovesBytes(ops[k])
        ensures Start(HeadAfter(h, ops[..k], count), ops[k], count) == CursorAfter(Cursor(h, count), ops[..k], 256 * count)
      {
        CarefulBefore(h, ops, k, count);
        InStepUpTo(h, ops[..k], count);
        StaysInStep(HeadAfter(h, ops[..k], count), ops[k], count);
      }
    }
    if AsTape(h, Cursor(h, count), ops, count) {
      CarefulUpTo(h, ops, |ops|, count);
      assert ops[..|ops|] == ops;
    }
  }

  lemma {:induction false} CarefulUpTo(h: Head, ops: seq<Op>, k: nat, count: nat)
    requires h.member < count && k <= |ops| && AsTape(h, Cursor(h, count), ops, count)
    ensures Careful(h, ops[..k], count)
  {
    hide Moved, Wrote, Red, Around, CursorAfter, Misses, Start, Cursor, Following, Place, MovesBytes;
    if k > 0 {
      CarefulUpTo(h, ops, k - 1, count);
      InStepUpTo(h, ops[..k - 1], count);
      MissedPlace(HeadAfter(h, ops[..k - 1], count), ops[k - 1], count);
      forall j | 0 <= j < k ensures !Misses(HeadAfter(h, ops[..k][..j], count), ops[..k][j], count) {
        assert ops[..k][..j] == ops[..j];
        if j < k - 1 {
          assert ops[..k - 1][..j] == ops[..j];
        }
      }
    }
  }

  /** An operation that does not miss is one on the tape. */
  lemma StepIsTape(s: Direct, op: Op, count: nat)
    requires Fits(s, count) && !Misses(s.head, op, count)
    ensures var cursor, after := Cursor(s.head, count), Step(s, op, count);
            && after.ring == (if op.Write? then Stored(s.ring, cursor, op.bytes) else s.ring)
            && Cursor(after.head, count) == Wound(cursor, op, 256 * count)
            && Sent(s, op) == if op.Read? then ReadAround(s.ring, cursor, op.n) else []
  {
    hide Moved, Cursor, Misses, Following, Place, Wound;
    StaysInStep(s.head, op, count);
  }

  /** A run in which no operation misses is one on the tape: it sends the same bytes and leaves the same ones. */
  lemma {:induction false} CarefulRunIsTape(s: Direct, ops: seq<Op>, count: nat)
    requires Fits(s, count) && Careful(s.head, ops, count)
    ensures var t, after := Tape(s.ring, Cursor(s.head, count)), Run(s, ops, count);
            TapeRun(t, ops) == Tape(after.ring, Cursor(after.head, count)) && TapeOutput(t, ops) == Output(s, ops, count)
  {
    hide Moved, Cursor, Misses, Careful, Stored, ReadAround, Step, Sent, HeadAfter, Wound;
    if ops != [] {
      var init, op := ops[..|ops| - 1], ops[|ops| - 1];
      CarefulBefore(s.head, ops, |init|, count);
      CarefulRunIsTape(s, init, count);
      RunMoves(s, init, count);
      StepIsTape(Run(s, init, count), op, count);
    }
  }

  lemma {:induction false} RunMoves(s: Direct, ops: seq<Op>, count: nat)
    requires Fits(s, count)
    ensures Run(s, ops, count).head == HeadAfter(s.head, ops, count)
  {
    if ops != [] {
      RunMoves(s, ops[..|ops| - 1], count);
    }
  }

  /** In a large buffer no run misses in which B-P or another read comes before each read. */
  lemma {:induction false} SeekBeforeReading(h: Head, ops: seq<Op>, count: nat)
    requires h.member < count && count > 1 && !h.full
    requires forall k :: 0 < k < |ops| && ops[k].Read? ==> !ops[k - 1].Write?
    ensures Careful(h, ops, count)
    ensures ops != [] && !ops[|ops| - 1].Write? ==> !HeadAfter(h, ops, count).full
  {
    if ops != [] {
      var init, op := ops[..|ops| - 1], ops[|ops| - 1];
      SeekBeforeReading(h, init, count);
      if op.Read? {
        ReadKeepsClear(HeadAfter(h, init, count), count, op.n);
      }
      forall k | 0 <= k < |ops| ensures !Misses(HeadAfter(h, ops[..k], count), ops[k], count) {
        if k < |init| {
          assert init[..k] == ops[..k] && init[k] == ops[k];
        }
      }
    }
  }

  /** In any buffer, right after it has been opened, no run misses in which no write reaches the last byte of a
      member. */
  lemma {:induction false} WithoutFilling(h: Head, ops: seq<Op>, count: nat)
    requires h.member < count && !h.full
    requires forall k :: 0 <= k < |ops| && ops[k].Write? ==>
                           HeadAfter(h, ops[..k], count).position as int + |ops[k].bytes| <= 255
    ensures Careful(h, ops, count) && !HeadAfter(h, ops, count).full
  {
    hide Moved;
    if ops != [] {
      var init, op := ops[..|ops| - 1], ops[|ops| - 1];
      forall k | 0 <= k < |init| ensures init[..k] == ops[..k] && init[k] == ops[k] {}
      WithoutFilling(h, init, count);
      StaysClear(HeadAfter(h, init, count), op, count);
    }
  }

  lemma StaysClear(h: Head, op: Op, count: nat)
    requires h.member < count && !h.full && (op.Write? ==> h.position as int + |op.bytes| <= 255)
    ensures !Moved(h, op, count).full
  {
    if op.Read? {
      ReadKeepsClear(h, count, op.n);
    } else if op.Write? {
      WriteKeepsClear(h, count, |op.bytes|);
    }
  }

  lemma {:induction false} WriteKeepsClear(h: Head, count: nat, n: nat)
    requires !h.full && h.position as int + n <= 255
    ensures Wrote(h, count, n) == h.(position := h.position + n)
  {
    if n > 0 {
      WriteKeepsClear(h, count, n - 1);
    }
  }

  // ---- Inputs on which it is not ----------------------------------------------------------

  lemma OneMore(s: Direct, ops: seq<Op>, op: Op, count: nat)
    requires Fits(s, count)
    ensures Run(s, ops + [op], count) == Step(Run(s, ops, count), op, count)
    ensures Output(s, ops + [op], count) == Output(s, ops, count) + Sent(Run(s, ops, count), op)
  {
    assert (ops + [op])[..|ops|] == ops;
  }

  /** Open "#1", B-P 255, write a byte, B-P p, write another, B-P p, read: the second byte is at the first
      position, and the old one comes back. */
  lemma MisplacedByte(ring: seq<byte>, c: byte, d: byte, p: byte)
    requires |ring| == 256 && p > 0
    ensures var s, ops := Direct(ring, Head(0, 0, false)), [Seek(0, 255), Write([c]), Seek(0, p), Write([d]), Seek(0, p), Read(1)];
            Run(s, ops, 1).ring == ring[255 := c][0 := d] && Output(s, ops, 1) == [ring[255 := c][p]]
  {
    hide Run, Output, Wrote, Stored, ReadAround;
    var s := Direct(ring, Head(0, 0, false));
    var seek, first, second := Seek(0, 255), Write([c]), Write([d]);
    var back := Seek(0, p);
    Opened(s, 1);
    OneMore(s, [], seek, 1);
    assert [] + [seek] == [seek];
    OneMore(s, [seek], first, 1);
    WroteNext(Sought(s.head, 1, 0, 255), 1, 0);
    StoredOne(ring, 255, c);
    assert Run(s, [seek] + [first], 1) == Direct(ring[255 := c], Head(0, 0, true));
    OneMore(s, [seek] + [first], back, 1);
    var misled := Head(0, p, true);
    assert Run(s, [seek] + [first] + [back], 1) == Direct(ring[255 := c], misled);
    OneMore(s, [seek] + [first] + [back], second, 1);
    WroteNext(misled, 1, 0);
    StoredOne(ring[255 := c], 0, d);
    OneMore(s, [seek] + [first] + [back] + [second], back, 1);
    OneMore(s, [seek] + [first] + [back] + [second] + [back], Read(1), 1);
    FirstRead(ring[255 := c][0 := d], p as nat);
    assert [seek] + [first] + [back] + [second] + [back] + [Read(1)] == [seek, first, back, second, back, Read(1)];
  }

  lemma Opened(s: Direct, count: nat)
    requires Fits(s, count)
    ensures Run(s, [], count) == s && Output(s, [], count) == []
  {}

  lemma WroteNext(h: Head, count: nat, n: nat)
    ensures Wrote(h, count, 0) == h && Wrote(h, count, n + 1) == AfterByte(Wrote(h, count, n), count)
  {}

  lemma StoredOne(ring: seq<byte>, x: nat, c: byte)
    requires x < |ring|
    ensures Stored(ring, x, [c]) == ring[x := c]
  {
    assert Stored(ring, x, [c]) == Stored(ring, x, [])[x := c];
  }

  /** Open "#2", write 256 bytes, read: not the next byte comes, but the first one again. */
  lemma ReadAgain(ring: seq<byte>, bytes: seq<byte>)
    requires |ring| == 512 && |bytes| == 256
    ensures var s, ops := Direct(ring, Head(0, 0, false)), [Write(bytes), Read(1)];
            Output(s, ops, 2) == [bytes[0]]
  {
    hide Run, Output, Wrote, Stored, ReadAround;
    var s := Direct(ring, Head(0, 0, false));
    Opened(s, 2);
    OneMore(s, [], Write(bytes), 2);
    assert [] + [Write(bytes)] == [Write(bytes)];
    OneMore(s, [Write(bytes)], Read(1), 2);
    assert [Write(bytes)] + [Read(1)] == [Write(bytes), Read(1)];
    WriteKeepsClear(s.head, 2, 255);
    WroteNext(s.head, 2, 255);
    StoredIsRead(ring, 0, bytes, 0);
    FirstRead(Stored(ring, 0, bytes), 0);
  }

  lemma FirstRead(ring: seq<byte>, x: nat)
    requires x < |ring|
    ensures ReadAround(ring, x, 1) == [ring[x]]
  {}

  // ---- The commands, one after the other ------------------------------------------------------

  ghost function View(bufs: seq<Buf>, memory: seq<Page>, first: nat, count: nat, at: nat): Direct
    requires first <= at < first + count <= |bufs| == |memory|
  {
    Direct(Contiguous(memory, first, count), HeadOf(bufs, first, at))
  }

  /** One command: afterwards the buffer stands as specified, and nothing outside it has changed. */
  method Obey(pool: Pool, first: nat, count: nat, secondary: byte, at: nat, memory: seq<Page>, op: Op)
    returns (sent: seq<byte>, after: seq<Page>, to: nat)
    requires pool.Valid() && Ring(pool.bufs[..], first, count, secondary, at) && |memory| == pool.bufs.Length
    modifies pool.bufs, pool`active
    ensures pool.Valid() && Ring(pool.bufs[..], first, count, secondary, to)
    ensures OthersSame(pool.bufs[..], old(pool.bufs[..]), first, count)
    ensures |after| == |memory| && OtherPages(after, memory, first, count)
    ensures first <= at < first + count && first <= to < first + count
    ensures var s := old(View(pool.bufs[..], memory, first, count, at));
            && Fits(s, count) && sent == Sent(s, op)
            && View(pool.bufs[..], after, first, count, to) == Step(s, op, count)
  {
    RingBounds(pool.bufs[..], first, count, secondary, at);
    sent, after, to := [], memory, at;
    match op
    case Seek(high, low) => to := pool.SetPosition(first, count, secondary, at, high, low);
    case Write(bytes) => after, to := pool.ListenLarge(first, count, secondary, at, memory, bytes);
    case Read(n) => sent, to := pool.TalkLarge(first, count, secondary, at, memory, n);
  }

  /** Any sequence of commands. While none of them misses, the computer cannot tell the buffer from a tape. */
  method Serve(pool: Pool, first: nat, count: nat, secondary: byte, at: nat, memory: seq<Page>, ops: seq<Op>)
    returns (sent: seq<byte>, after: seq<Page>, to: nat)
    requires pool.Valid() && Ring(pool.bufs[..], first, count, secondary, at) && |memory| == pool.bufs.Length
    modifies pool.bufs, pool`active
    ensures pool.Valid() && Ring(pool.bufs[..], first, count, secondary, to)
    ensures OthersSame(pool.bufs[..], old(pool.bufs[..]), first, count)
    ensures |after| == |memory| && OtherPages(after, memory, first, count)
    ensures first <= at < first + count && first <= to < first + count
    ensures var s := old(View(pool.bufs[..], memory, first, count, at));
            && Fits(s, count) && sent == Output(s, ops, count)
            && View(pool.bufs[..], after, first, count, to) == Run(s, ops, count)
            && (Careful(s.head, ops, count) ==>
                  && sent == TapeOutput(Tape(s.ring, Cursor(s.head, count)), ops)
                  && Contiguous(after, first, count) == TapeRun(Tape(s.ring, Cursor(s.head, count)), ops).ring)
  {
    hide Ring, OthersSame, Careful, TapeOutput, TapeRun, Step, Sent;
    RingBounds(pool.bufs[..], first, count, secondary, at);
    NothingChanged(pool.bufs[..], first, count);
    ghost var s := View(pool.bufs[..], memory, first, count, at);
    sent, after, to := [], memory, at;
    Opened(s, count);
    for k := 0 to |ops|
      invariant pool.Valid() && Ring(pool.bufs[..], first, count, secondary, to)
      invariant OthersSame(pool.bufs[..], old(pool.bufs[..]), first, count)
      invariant |after| == |memory| && OtherPages(after, memory, first, count) && first <= to < first + count
      invariant sent == Output(s, ops[..k], count)
      invariant View(pool.bufs[..], after, first, count, to) == Run(s, ops[..k], count)
    {
      ghost var before := pool.bufs[..];
      var more;
      more, after, to := Obey(pool, first, count, secondary, to, after, ops[k]);
      sent := sent + more;
      OthersSameTwice(pool.bufs[..], before, old(pool.bufs[..]), first, count);
      OneMore(s, ops[..k], ops[k], count);
      assert ops[..k] + [ops[k]] == ops[..k + 1];
    }
    assert ops[..|ops|] == ops;
    if Careful(s.head, ops, count) {
      CarefulRunIsTape(s, ops, count);
    }
  }
}

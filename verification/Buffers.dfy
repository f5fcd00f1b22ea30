/** The pool of data buffers, its packed counter, and large direct-access buffers (src/buffers.c,
    src/fileops.c, open_buffer and directbuffer_refill, and B-P in src/doscmd.c). */
module Buffers {
  import opened Bits

  const SYSTEM: byte := 100        // secondary address of buffers for internal use
  const CHAIN: byte := 99          // CHAIN - s marks the waiting members of a large buffer
  const END := 255                 // no next buffer in a chain

  datatype Buf = Buf(taken: bool, secondary: byte, dirty: bool, position: byte, lastused: byte, mustflush: bool, sendeoi: bool,
                     first: nat, next: nat, size: nat)

  // ---- The counter -------------------------------------------------------------------

  function Counts(b: Buf): nat {
    if !b.taken then 0 else (if b.secondary < SYSTEM then 1 else 0) + if b.dirty then 16 else 0
  }

  /** Number of users' buffers plus sixteen times the number of dirty ones. */
  function Total(bufs: seq<Buf>): nat {
    if bufs == [] then 0 else Total(bufs[..|bufs| - 1]) + Counts(bufs[|bufs| - 1])
  }

  function Users(bufs: seq<Buf>): (r: nat)
    ensures r <= |bufs|
  {
    if bufs == [] then 0
    else
      var b := bufs[|bufs| - 1];
      Users(bufs[..|bufs| - 1]) + if b.taken && b.secondary < SYSTEM then 1 else 0
  }

  function Dirty(bufs: seq<Buf>): (r: nat)
    ensures r <= |bufs|
  {
    if bufs == [] then 0
    else
      var b := bufs[|bufs| - 1];
      Dirty(bufs[..|bufs| - 1]) + if b.taken && b.dirty then 1 else 0
  }

  /** With at most 15 buffers the two numbers can be read off the counter: get_dirty_buffer_count is the
      number of dirty buffers. */
  lemma {:induction false} CounterUnpacks(bufs: seq<Buf>)
    ensures Total(bufs) == Users(bufs) + 16 * Dirty(bufs)
    ensures |bufs| <= 15 ==> Total(bufs) <= 255 && Total(bufs) / 16 == Dirty(bufs) && Total(bufs) % 16 == Users(bufs)
  {
    if bufs != [] {
      CounterUnpacks(bufs[..|bufs| - 1]);
    }
  }

  lemma {:induction false} TotalUpdate(bufs: seq<Buf>, i: nat, b: Buf)
    requires i < |bufs|
    ensures Total(bufs[i := b]) + Counts(bufs[i]) == Total(bufs) + Counts(b)
  {
    var last := |bufs| - 1;
    if i == last {
      assert bufs[i := b][..last] == bufs[..last];
    } else {
      TotalUpdate(bufs[..last], i, b);
      assert bufs[i := b][..last] == bufs[..last][i := b];
    }
  }

  // ---- Large buffers --------------------------------------------------------------------

  /** A large buffer for a secondary address: neighbouring buffers linked in order, the last one to none,
      and exactly one of them, number at, with the real secondary address. */
  ghost predicate Ring(bufs: seq<Buf>, first: nat, count: nat, secondary: byte, at: nat) {
    && 1 <= count && first + count <= |bufs| && first <= at < first + count && secondary <= 15
    && forall j :: first <= j < first + count ==> Member(bufs[j], first, count, secondary, j, at)
  }

  predicate Member(b: Buf, first: nat, count: nat, secondary: byte, j: nat, at: nat) {
    && b.taken && b.first == first && b.size == count && b.next == (if j + 1 < first + count then j + 1 else END)
    && b.lastused == 255
    && b.secondary as int == if j == at then secondary as int else CHAIN - secondary
  }

  /** Offset of the next byte in the contiguous data of a large buffer. */
  function Offset(active: nat, position: nat): nat {
    256 * active + position
  }

  /** The next offset, around the ring. */
  lemma NextOffset(x: nat, n: nat)
    requires n > 0
    ensures (x + 1) % n == if x % n + 1 == n then 0 else x % n + 1
  {
    var q, r := x / n, x % n;
    assert x == n * q + r;
    if r + 1 == n {
      assert x + 1 == n * (q + 1) + 0;
      Remainder(x + 1, n, q + 1, 0);
    } else {
      Remainder(x + 1, n, q, r + 1);
    }
  }

  /** Where a large buffer stands: its active member, and that member's position and mustflush. */
  datatype Head = Head(member: nat, position: byte, full: bool)

  /** The next member, around the ring. */
  function Next(member: nat, count: nat): nat {
    if member + 1 < count then member + 1 else 0
  }

  /** Where the next byte is read. */
  function Place(h: Head): nat {
    Offset(h.member, h.position)
  }

  /** Where the next byte that arrives is stored: a member that must be flushed is left first, wherever in it
      the position is. */
  function Following(h: Head, count: nat): nat {
    if h.full then Offset(Next(h.member, count), 0) else Place(h)
  }

  /** After B-P. */
  function Sought(h: Head, count: nat, high: byte, low: byte): Head
    requires count > 0
  {
    Head(Around(count, 0, high), low, count == 1 && h.full)
  }

  function AfterByte(h: Head, count: nat): Head {
    var member, position := if h.full then Next(h.member, count) else h.member, if h.full then 0 else h.position;
    Head(member, (position + 1) % 256, position == 255)
  }

  /** After so many bytes have arrived. */
  function Wrote(h: Head, count: nat, n: nat): Head {
    if n == 0 then h else AfterByte(Wrote(h, count, n - 1), count)
  }

  function AfterRead(h: Head, count: nat): Head {
    if h.position < 255 then h.(position := h.position + 1) else Head(Next(h.member, count), 0, false)
  }

  /** After so many bytes have been sent. */
  function Red(h: Head, count: nat, n: nat): Head {
    if n == 0 then h else AfterRead(Red(h, count, n - 1), count)
  }

  /** Bytes that arrive go around the ring, without gaps across the members. */
  lemma {:induction false} WroteFollows(h: Head, count: nat, n: nat)
    requires h.member < count
    ensures Wrote(h, count, n).member < count
    ensures Following(Wrote(h, count, n), count) == (Following(h, count) + n) % (256 * count)
  {
    var x, size := Following(h, count), 256 * count;
    if n == 0 {
      Remainder(x, size, 0, x);
    } else {
      WroteFollows(h, count, n - 1);
      ByteFollows(Wrote(h, count, n - 1), count);
      NextOffset(x + n - 1, size);
    }
  }

  lemma ByteFollows(h: Head, count: nat)
    requires h.member < count
    ensures AfterByte(h, count).member < count && Following(h, count) < 256 * count
    ensures Following(AfterByte(h, count), count) == if Following(h, count) + 1 == 256 * count then 0 else Following(h, count) + 1
  {}

  /** So do the bytes that are sent. */
  lemma {:induction false} RedFollows(h: Head, count: nat, n: nat)
    requires h.member < count
    ensures Red(h, count, n).member < count
    ensures Place(Red(h, count, n)) == (Place(h) + n) % (256 * count)
  {
    var x, size := Place(h), 256 * count;
    if n == 0 {
      Remainder(x, size, 0, x);
    } else {
      RedFollows(h, count, n - 1);
      NextOffset(x + n - 1, size);
    }
  }

  /** Contents of one buffer. */
  type Page = p: seq<byte> | |p| == 256 witness seq(256, _ => 0)

  /** The data of the members of a large buffer, end to end. */
  function Contiguous(memory: seq<Page>, first: nat, count: nat): (r: seq<byte>)
    requires first + count <= |memory|
    ensures |r| == 256 * count
  {
    if count == 0 then [] else Contiguous(memory, first, count - 1) + memory[first + count - 1]
  }

  lemma {:induction false} ContiguousAt(memory: seq<Page>, first: nat, count: nat, a: nat, p: nat)
    requires first + count <= |memory| && a < count && p < 256
    ensures Offset(a, p) < 256 * count && Contiguous(memory, first, count)[Offset(a, p)] == memory[first + a][p]
  {
    if a < count - 1 {
      ContiguousAt(memory, first, count - 1, a, p);
    }
  }

  lemma {:induction false} ContiguousPut(memory: seq<Page>, first: nat, count: nat, a: nat, p: nat, c: byte)
    requires first + count <= |memory| && p < 256 && first + a < |memory|
    ensures a < count ==> Offset(a, p) < 256 * count
    ensures var after := memory[first + a := memory[first + a][p := c]];
            Contiguous(after, first, count)
            == if a < count then Contiguous(memory, first, count)[Offset(a, p) := c] else Contiguous(memory, first, count)
    decreases count
  {
    if count > 0 {
      ContiguousPut(memory, first, count - 1, a, p, c);
    }
  }

  /** Bytes stored around a ring, from an offset on. */
  function Stored(ring: seq<byte>, x: nat, bytes: seq<byte>): (r: seq<byte>)
    requires |ring| > 0
    ensures |r| == |ring|
    decreases |bytes|
  {
    if bytes == [] then ring else Stored(ring, x, bytes[..|bytes| - 1])[(x + |bytes| - 1) % |ring| := bytes[|bytes| - 1]]
  }

  /** What was stored around the ring is what is read back from the same offset, as long as it does not
      overtake itself. */
  lemma {:induction false} StoredIsRead(ring: seq<byte>, x: nat, bytes: seq<byte>, i: nat)
    requires |ring| > 0 && i < |bytes| <= |ring|
    ensures Stored(ring, x, bytes)[(x + i) % |ring|] == bytes[i]
  {
    var last := |bytes| - 1;
    if i < last {
      StoredIsRead(ring, x, bytes[..last], i);
      ApartModulo(x + i, x + last, |ring|);
    }
  }

  lemma ApartModulo(a: nat, b: nat, n: nat)
    requires a < b < a + n
    ensures a % n != b % n
  {
    var q, r, d := a / n, a % n, b - a;
    assert a == n * q + r && n * (q + 1) == n * q + n;
    if r + d < n {
      Remainder(b, n, q, r + d);
    } else {
      Remainder(b, n, q + 1, r + d - n);
    }
  }

  /** Bytes read around a ring, from an offset on. */
  function ReadAround(ring: seq<byte>, x: nat, n: nat): (r: seq<byte>)
    requires |ring| > 0
    ensures |r| == n
  {
    seq(n, i requires 0 <= i < n => ring[(x + i) % |ring|])
  }

  lemma ReadBack(ring: seq<byte>, x: nat, bytes: seq<byte>)
    requires |bytes| <= |ring| && |ring| > 0
    ensures ReadAround(Stored(ring, x, bytes), x, |bytes|) == bytes
  {
    forall i | 0 <= i < |bytes| ensures Stored(ring, x, bytes)[(x + i) % |ring|] == bytes[i] {
      StoredIsRead(ring, x, bytes, i);
    }
  }

  /** So many steps around a ring. */
  function Around(count: nat, from: nat, steps: nat): (r: nat)
    requires from < count
    ensures r < count
    decreases steps
  {
    if steps == 0 then from else Around(count, Next(from, count), steps - 1)
  }

  lemma {:induction false} AroundModulo(count: nat, from: nat, steps: nat)
    requires from < count
    ensures Around(count, from, steps) == (from + steps) % count
    decreases steps
  {
    if steps > 0 {
      AroundModulo(count, Next(from, count), steps - 1);
      if from + 1 == count {
        AddModulo(steps - 1, count);
      }
    } else {
      assert from % count == from;
    }
  }

  lemma AddModulo(a: nat, n: nat)
    requires n > 0
    ensures (a + n) % n == a % n
  {
    assert a == n * (a / n) + a % n;
    assert a + n == n * (a / n + 1) + a % n;
    Remainder(a + n, n, a / n + 1, a % n);
  }

  lemma Remainder(x: nat, n: nat, q: nat, r: nat)
    requires n > 0 && x == n * q + r && r < n
    ensures x % n == r
  {
    var q2, r2 := x / n, x % n;
    assert x == n * q2 + r2;
    if q2 > q {
      Multiples(n, q, q2);
    } else if q2 < q {
      Multiples(n, q2, q);
    }
  }

  lemma {:induction false} Multiples(n: nat, a: nat, b: nat)
    requires a < b
    ensures n * a + n <= n * b
  {
    assert n * b == n * (b - 1) + n;
    if a < b - 1 {
      Multiples(n, a, b - 1);
    }
  }

  /** Whatever the ring holds, bytes stored from one place on are read from the other one. */
  ghost predicate ComesBack(size: nat, stored: nat, read: nat)
    requires size > 0
  {
    forall ring: seq<byte>, bytes: seq<byte> | |bytes| <= |ring| == size ::
      ReadAround(Stored(ring, stored, bytes), read, |bytes|) == bytes
  }

  lemma OnlyFromTheSamePlace(size: nat, stored: nat, read: nat)
    requires stored < size && read < size
    ensures ComesBack(size, stored, read) <==> stored == read
  {
    if stored == read {
      forall ring: seq<byte>, bytes: seq<byte> | |bytes| <= |ring| == size
        ensures ReadAround(Stored(ring, stored, bytes), read, |bytes|) == bytes
      {
        ReadBack(ring, stored, bytes);
      }
    } else {
      ByteElsewhere(size, stored, read);
    }
  }

  lemma ByteElsewhere(size: nat, stored: nat, read: nat)
    requires stored < size && read < size && stored != read
    ensures !ComesBack(size, stored, read)
  {
    var ring: seq<byte>, bytes: seq<byte> := seq(size, _ => 0), [1];
    Remainder(stored, size, 0, stored);
    Remainder(read, size, 0, read);
    assert Stored(ring, stored, bytes) == ring[stored := 1];
    assert ReadAround(Stored(ring, stored, bytes), read, |bytes|)[0] == 0;
  }

  /** Bytes written after B-P are stored from there on, and come back after B-P to the same position whatever they
      are, exactly when the buffer has several members, or mustflush was clear at the first B-P, or the position is
      the first one. Otherwise they are stored from the first position on. */
  lemma ComesBackIff(h: Head, count: nat, high: byte, low: byte)
    requires h.member < count
    ensures var s := Sought(h, count, high, low);
            && (ComesBack(256 * count, Following(s, count), Place(s)) <==> count > 1 || !h.full || low == 0)
            && Following(s, count) == if count > 1 || !h.full || low == 0 then Place(s) else 0
  {
    hide ComesBack;
    var s := Sought(h, count, high, low);
    ByteFollows(s, count);
    OnlyFromTheSamePlace(256 * count, Following(s, count), Place(s));
  }

  /** B-P with a high byte selects the byte that many places from the start, around the whole ring. */
  lemma PositionModulo(count: nat, high: byte, low: byte)
    requires count > 0
    ensures Offset(Around(count, 0, high), low) == (256 * high + low) % (256 * count)
  {
    hide Around;
    AroundModulo(count, 0, high);
    Scaled(high, low, count);
  }

  lemma Scaled(h: nat, l: nat, count: nat)
    requires count > 0 && l < 256
    ensures (256 * h + l) % (256 * count) == 256 * (h % count) + l
  {
    var q, r := h / count, h % count;
    assert h == count * q + r;
    Rescale(count, q);
    Remainder(256 * h + l, 256 * count, q, 256 * r + l);
  }

  lemma Rescale(count: nat, q: nat)
    ensures 256 * (count * q) == (256 * count) * q
  {}

  // ---- The pool -----------------------------------------------------------------------------

  class Pool {
    const bufs: array<Buf>
    var active: byte  // active_buffers

    ghost predicate Valid()
      reads this, bufs
    {
      1 <= bufs.Length <= 15 && active as int == Total(bufs[..])
    }

    /** buffers_init; the error buffer is kept apart. */
    constructor (count: nat)
      requires 1 <= count <= 15
      ensures Valid() && fresh(bufs) && bufs.Length == count && forall i :: 0 <= i < count ==> !bufs[i].taken
    {
      bufs := new Buf[count](i => Buf(false, 0, false, 0, 0, false, false, 0, 0, 0));
      active := 0;
      new;
      NoneAllocated(bufs[..]);
    }

    /** A change of one buffer changes the counter by what the buffer counts for. */
    lemma Changed(i: nat, b: Buf)
      requires Valid() && i < bufs.Length
      ensures active + Counts(b) - Counts(bufs[i]) == Total(bufs[..][i := b]) <= 255
    {
      TotalUpdate(bufs[..], i, b);
      CounterUnpacks(bufs[..][i := b]);
    }

    /** alloc_specific_buffer of a free buffer: a system buffer, which the counter ignores. */
    method AllocSpecific(i: nat)
      requires Valid() && i < bufs.Length && !bufs[i].taken
      modifies bufs
      ensures Valid() && bufs[..] == old(bufs[..])[i := Buf(true, SYSTEM, false, 0, 0, false, false, 0, END, 0)]
    {
      var b := Buf(true, SYSTEM, false, 0, 0, false, false, 0, END, 0);
      Changed(i, b);
      bufs[i] := b;
      assert bufs[..] == old(bufs[..])[i := b];
    }

    /** alloc_system_buffer: the first free buffer, if there is one. */
    method AllocSystem() returns (i: nat)
      requires Valid()
      modifies bufs
      ensures Valid() && i <= bufs.Length && forall j :: 0 <= j < i ==> old(bufs[j].taken)
      ensures if i == bufs.Length then bufs[..] == old(bufs[..])
              else !old(bufs[i].taken) && bufs[..] == old(bufs[..])[i := Buf(true, SYSTEM, false, 0, 0, false, false, 0, END, 0)]
    {
      i := 0;
      while i < bufs.Length
        invariant 0 <= i <= bufs.Length && Valid() && bufs[..] == old(bufs[..])
        invariant forall j :: 0 <= j < i ==> bufs[j].taken
      {
        if !bufs[i].taken {
          assert !old(bufs[..])[i].taken;
          AllocSpecific(i);
          return;
        }
        i := i + 1;
      }
    }

    /** Give a buffer a user's secondary address, and count it. */
    method Adopt(i: nat, b: Buf)
      requires Valid() && i < bufs.Length && bufs[i].taken && bufs[i].secondary >= SYSTEM
      requires b.taken && b.secondary < SYSTEM && b.dirty == bufs[i].dirty
      modifies bufs, this`active
      ensures Valid() && bufs[..] == old(bufs[..])[i := b]
    {
      Changed(i, b);
      bufs[i] := b;
      active := active + 1;
      assert bufs[..] == old(bufs[..])[i := b];
    }

    /** alloc_buffer */
    method AllocUser() returns (i: nat)
      requires Valid()
      modifies bufs, this`active
      ensures Valid() && i <= bufs.Length && forall j :: 0 <= j < i ==> old(bufs[j].taken)
      ensures if i == bufs.Length then bufs[..] == old(bufs[..])
              else !old(bufs[i].taken) && bufs[..] == old(bufs[..])[i := Buf(true, 0, false, 0, 0, false, false, 0, END, 0)]
    {
      i := AllocSystem();
      if i < bufs.Length {
        Adopt(i, bufs[i].(secondary := 0));
      }
    }

    /** free_buffer: a second call does nothing, and the error channel is never freed. */
    method Free(i: nat)
      requires Valid() && i < bufs.Length
      modifies bufs, this`active
      ensures Valid()
      ensures bufs[..] == if old(bufs[i]).secondary == 15 then old(bufs[..]) else old(bufs[..])[i := old(bufs[i]).(taken := false)]
    {
      var b := bufs[i];
      if b.secondary == 15 {
        return;
      }
      Changed(i, b.(taken := false));
      if b.taken {
        bufs[i] := b.(taken := false);
        if b.dirty {
          active := (active + 256 - 16) % 256;
        }
        if b.secondary < SYSTEM {
          active := (active + 255) % 256;
        }
      }
      assert bufs[..] == old(bufs[..])[i := b.(taken := false)];
    }

    /** mark_buffer_dirty and mark_buffer_clean: marking twice counts once. The counter is then wrong exactly if the
        mark of a buffer that is not in use changes. */
    method MarkDirty(i: nat, dirty: bool)
      requires Valid() && i < bufs.Length
      modifies bufs, this`active
      ensures bufs[..] == old(bufs[..])[i := old(bufs[i]).(dirty := dirty)]
      ensures Valid() <==> old(bufs[i].taken) || old(bufs[i].dirty) == dirty
    {
      var b := bufs[i];
      Changed(i, b.(dirty := dirty));
      if b.dirty != dirty {
        bufs[i] := b.(dirty := dirty);
        active := if dirty then (active + 16) % 256 else (active + 256 - 16) % 256;
      }
      assert bufs[..] == old(bufs[..])[i := b.(dirty := dirty)];
    }

    /** Assign to fields that the counter does not depend on. */
    method Set(i: nat, b: Buf)
      requires Valid() && i < bufs.Length && Counts(b) == Counts(bufs[i])
      modifies bufs
      ensures Valid() && bufs[..] == old(bufs[..])[i := b]
    {
      Changed(i, b);
      bufs[i] := b;
      assert bufs[..] == old(bufs[..])[i := b];
    }

    /** find_buffer: the first buffer in use with the secondary address. The error channel's buffer, behind all
        others, is always in use. */
    method Find(secondary: byte) returns (i: nat, found: bool)
      requires Valid()
      ensures i <= bufs.Length && forall j :: 0 <= j < i ==> !(bufs[j].taken && bufs[j].secondary == secondary)
      ensures found <==> if i < bufs.Length then bufs[i].taken && bufs[i].secondary == secondary else secondary == 15
      ensures i < bufs.Length ==> found
    {
      i := 0;
      while i < bufs.Length
        invariant 0 <= i <= bufs.Length && forall j :: 0 <= j < i ==> !(bufs[j].taken && bufs[j].secondary == secondary)
      {
        if bufs[i].taken && bufs[i].secondary == secondary {
          return i, true;
        }
        i := i + 1;
      }
      found := secondary == 15;
    }

    /** The search of alloc_linked_buffers: the lowest start of so many free neighbours. */
    method FindRun(count: byte) returns (start: nat, found: bool)
      requires Valid() && count > 0
      ensures found ==> start + count <= bufs.Length && forall k :: start <= k < start + count ==> !bufs[k].taken
      ensures found ==> forall s: nat :: s < start ==> !FreeRun(bufs[..], s, count)
      ensures !found ==> forall s: nat :: !FreeRun(bufs[..], s, count)
    {
      var free, i := 0, 0;
      start := 0;
      while i < bufs.Length
        invariant 0 <= i <= bufs.Length && 0 <= free < count as int && free <= i && (free > 0 ==> start == i - free)
        invariant forall k :: i - free <= k < i ==> !bufs[k].taken
        invariant forall s: nat :: s < i - free ==> !FreeRun(bufs[..], s, count)
      {
        if bufs[i].taken {
          BrokenRun(bufs[..], i, free, count as nat);
          free := 0;
        } else {
          if free == 0 {
            start := i;
          }
          free := free + 1;
          if free == count as int {
            return start, true;
          }
        }
        i := i + 1;
      }
      found := false;
    }

    /** A direct-access buffer: a ring of one member. Its position starts at 1. */
    method OpenDirect(secondary: byte) returns (i: nat, ok: bool)
      requires Valid() && secondary < 15
      modifies bufs, this`active
      ensures Valid() && i <= bufs.Length && forall j :: 0 <= j < i ==> old(bufs[j].taken)
      ensures ok <==> i < bufs.Length
      ensures ok ==> Ring(bufs[..], i, 1, secondary, i) && HeadOf(bufs[..], i, i) == Head(0, 1, false)
      ensures ok ==> !old(bufs[i].taken) && bufs[..] == old(bufs[..])[i := bufs[i]]
      ensures !ok ==> bufs[..] == old(bufs[..])
    {
      i := AllocUser();
      ok := i < bufs.Length;
      if ok {
        Set(i, bufs[i].(secondary := secondary, position := 1, lastused := 255, sendeoi := true, size := 1, first := i));
        assert Member(bufs[..][i], i, 1, secondary, i, i);
      }
    }

    /** A large buffer: link the members, mark all but the first as waiting, and the last one as the end. */
    method OpenLarge(secondary: byte, count: byte) returns (first: nat, ok: bool)
      requires Valid() && secondary < 15
      modifies bufs, this`active
      ensures Valid()
      ensures ok ==> Ring(bufs[..], first, count as nat, secondary, first)
      ensures ok ==> HeadOf(bufs[..], first, first) == Head(0, 0, false)
      ensures ok ==> forall j :: 0 <= j < bufs.Length && !(first <= j < first + count) ==> bufs[j] == old(bufs[j])
      ensures ok ==> forall k :: first <= k < first + count ==> !old(bufs[k].taken)
      ensures !ok ==> bufs[..] == old(bufs[..]) && (count == 0 || forall s: nat :: !FreeRun(bufs[..], s, count))
    {
      if count == 0 {
        return 0, false;
      }
      first, ok := FindRun(count);
      if !ok {
        return;
      }
      for i := 0 to count
        invariant Valid() && first + count <= bufs.Length
        invariant forall j :: 0 <= j < bufs.Length && !(first <= j < first + i) ==> bufs[j] == old(bufs[j])
        invariant forall j :: first <= j < first + i ==> bufs[j] == Linked(first, count as nat, j, secondary)
      {
        AllocSpecific(first + i);
        Adopt(first + i, Linked(first, count as nat, first + i, secondary));
      }
    }

    /** directbuffer_refill: the next member becomes the active one, at its first byte. */
    method Refill(first: nat, count: nat, secondary: byte, at: nat) returns (to: nat)
      requires Valid() && Ring(bufs[..], first, count, secondary, at)
      modifies bufs
      ensures Valid() && to == if at + 1 < first + count then at + 1 else first
      ensures Ring(bufs[..], first, count, secondary, to) && bufs[to].position == 0 && !bufs[to].mustflush
      ensures OthersSame(bufs[..], old(bufs[..]), first, count)
    {
      assert Member(bufs[..][at], first, count, secondary, at, at);
      to := if bufs[at].next == END then bufs[at].first else bufs[at].next;
      assert Member(bufs[..][to], first, count, secondary, to, at);
      HandOver(first, count, secondary, at, to, 0);
    }

    /** Give the real secondary address from one member to another (or the same) one. */
    method HandOver(first: nat, count: nat, secondary: byte, at: nat, to: nat, position: byte)
      requires Valid() && Ring(bufs[..], first, count, secondary, at) && first <= to < first + count
      modifies bufs
      ensures Valid() && Ring(bufs[..], first, count, secondary, to) && bufs[to].position == position && !bufs[to].mustflush
      ensures OthersSame(bufs[..], old(bufs[..]), first, count)
    {
      ghost var was := bufs[..];
      assert Member(was[at], first, count, secondary, at, at) && Member(was[to], first, count, secondary, to, at);
      Set(at, bufs[at].(secondary := CHAIN - secondary));
      Set(to, bufs[to].(secondary := secondary, position := position, mustflush := false));
      ghost var now := bufs[..];
      forall j | first <= j < first + count ensures Member(now[j], first, count, secondary, j, to) {
        assert Member(was[j], first, count, secondary, j, at);
      }
    }

    /** B-P. On a large buffer: walk the chain from its first member as many steps as the high byte says. A buffer
        of one member keeps its mustflush. */
    method SetPosition(first: nat, count: nat, secondary: byte, at: nat, high: byte, low: byte) returns (to: nat)
      requires Valid() && Ring(bufs[..], first, count, secondary, at)
      modifies bufs
      ensures Valid() && Ring(bufs[..], first, count, secondary, to) && OthersSame(bufs[..], old(bufs[..]), first, count)
      ensures HeadOf(bufs[..], first, to) == Sought(old(HeadOf(bufs[..], first, at)), count, high, low)
    {
      ghost var was := bufs[..];
      assert Member(was[at], first, count, secondary, at, at);
      to := at;
      if bufs[at].size != 1 {
        var steps := high;
        to := bufs[at].first;
        while steps > 0
          invariant first <= to < first + count && bufs[..] == was
          invariant Around(count, to - first, steps) == Around(count, 0, high)
        {
          assert Member(was[to], first, count, secondary, to, at) && bufs[to] == was[to];
          to := if bufs[to].next != END then bufs[to].next else bufs[to].first;
          steps := steps - 1;
        }
        HandOver(first, count, secondary, at, to, low);
      } else {
        Set(at, bufs[at].(position := low));
        assert Member(bufs[..][at], first, 1, secondary, at, at);
      }
    }

    /** TALK: any number of bytes, which are those of the ring from the current position on, across all members and
        around the end. */
    method TalkLarge(first: nat, count: nat, secondary: byte, at: nat, memory: seq<Page>, n: nat)
      returns (sent: seq<byte>, to: nat)
      requires Valid() && Ring(bufs[..], first, count, secondary, at) && |memory| == bufs.Length
      modifies bufs
      ensures Valid() && Ring(bufs[..], first, count, secondary, to) && OthersSame(bufs[..], old(bufs[..]), first, count)
      ensures sent == ReadAround(Contiguous(memory, first, count), Place(old(HeadOf(bufs[..], first, at))), n)
      ensures HeadOf(bufs[..], first, to) == Red(old(HeadOf(bufs[..], first, at)), count, n)
    {
      hide Ring, Contiguous, OthersSame, Total, Place, AfterRead;
      RingBounds(bufs[..], first, count, secondary, at);
      ghost var h, ring, size := HeadOf(bufs[..], first, at), Contiguous(memory, first, count), 256 * count;
      NothingChanged(bufs[..], first, count);
      to, sent := at, [];
      for k := 0 to n
        invariant Valid() && Ring(bufs[..], first, count, secondary, to) && OthersSame(bufs[..], old(bufs[..]), first, count)
        invariant first <= to < first + count <= bufs.Length
        invariant HeadOf(bufs[..], first, to) == Red(h, count, k)
        invariant |sent| == k && forall i :: 0 <= i < k ==> sent[i] == ring[(Place(h) + i) % size]
      {
        PlaceAt(memory, first, count, HeadOf(bufs[..], first, to));
        RedFollows(h, count, k);
        sent := sent + [memory[to][bufs[to].position]];
        ghost var before := bufs[..];
        to := Advance(first, count, secondary, to);
        OthersSameTwice(bufs[..], before, old(bufs[..]), first, count);
      }
    }

    /** LISTEN: the bytes go around the ring, from where the next one is stored. */
    method ListenLarge(first: nat, count: nat, secondary: byte, at: nat, memory: seq<Page>, bytes: seq<byte>)
      returns (after: seq<Page>, to: nat)
      requires Valid() && Ring(bufs[..], first, count, secondary, at) && |memory| == bufs.Length
      modifies bufs, this`active
      ensures Valid() && Ring(bufs[..], first, count, secondary, to) && OthersSame(bufs[..], old(bufs[..]), first, count)
      ensures |after| == |memory| && OtherPages(after, memory, first, count)
      ensures var x := Following(old(HeadOf(bufs[..], first, at)), count);
              Contiguous(after, first, count) == Stored(Contiguous(memory, first, count), x, bytes)
      ensures HeadOf(bufs[..], first, to) == Wrote(old(HeadOf(bufs[..], first, at)), count, |bytes|)
    {
      hide Ring, Contiguous, OthersSame, Total, Following, AfterByte;
      RingBounds(bufs[..], first, count, secondary, at);
      ghost var h, ring := HeadOf(bufs[..], first, at), Contiguous(memory, first, count);
      NothingChanged(bufs[..], first, count);
      after, to := memory, at;
      assert Stored(ring, Following(h, count), bytes[..0]) == ring;
      for k := 0 to |bytes|
        invariant Valid() && Ring(bufs[..], first, count, secondary, to) && OthersSame(bufs[..], old(bufs[..]), first, count)
        invariant first <= to < first + count <= bufs.Length && |after| == |memory| && OtherPages(after, memory, first, count)
        invariant HeadOf(bufs[..], first, to) == Wrote(h, count, k)
        invariant Contiguous(after, first, count) == Stored(ring, Following(h, count), bytes[..k])
      {
        WroteFollows(h, count, k);
        ghost var before := bufs[..];
        after, to := StoreNext(first, count, secondary, to, after, bytes[k]);
        OthersSameTwice(bufs[..], before, old(bufs[..]), first, count);
        assert bytes[..k + 1][..k] == bytes[..k];
      }
      assert bytes[..|bytes|] == bytes;
    }

    /** B-P to a position, writing, B-P to the same position, reading. A large buffer gives the bytes back, wherever
        they lie in the ring. A single one with a stale mustflush has stored them from its first byte on. */
    method WriteThenRead(first: nat, count: nat, secondary: byte, at: nat, memory: seq<Page>, high: byte, low: byte, bytes: seq<byte>)
      returns (sent: seq<byte>, after: seq<Page>, to: nat)
      requires Valid() && Ring(bufs[..], first, count, secondary, at)
      requires |memory| == bufs.Length && |bytes| <= 256 * count
      modifies bufs, this`active
      ensures Valid() && Ring(bufs[..], first, count, secondary, to) && OthersSame(bufs[..], old(bufs[..]), first, count)
      ensures |after| == |memory| && OtherPages(after, memory, first, count)
      ensures var ring, p := Contiguous(memory, first, count), Offset(Around(count, 0, high), low);
              if count > 1 || !old(HeadOf(bufs[..], first, at)).full || low == 0
              then Contiguous(after, first, count) == Stored(ring, p, bytes) && sent == bytes
              else Contiguous(after, first, count) == Stored(ring, 0, bytes)
                   && sent == ReadAround(Stored(ring, 0, bytes), low, |bytes|)
    {
      hide Ring, Contiguous, OthersSame, Total, Around, Wrote, Red;
      RingBounds(bufs[..], first, count, secondary, at);
      to := SetPosition(first, count, secondary, at, high, low);
      ghost var s, sought := HeadOf(bufs[..], first, to), bufs[..];
      after, to := ListenLarge(first, count, secondary, to, memory, bytes);
      OthersSameTwice(bufs[..], sought, old(bufs[..]), first, count);
      ghost var written := bufs[..];
      to := SetPosition(first, count, secondary, to, high, low);
      OthersSameTwice(bufs[..], written, old(bufs[..]), first, count);
      ghost var again := bufs[..];
      sent, to := TalkLarge(first, count, secondary, to, after, |bytes|);
      OthersSameTwice(bufs[..], again, old(bufs[..]), first, count);
      if Following(s, count) == Place(s) {
        ReadBack(Contiguous(memory, first, count), Place(s), bytes);
      }
    }

    /** One byte that arrives: a full member is left first, then the byte is stored. */
    method StoreNext(first: nat, count: nat, secondary: byte, at: nat, memory: seq<Page>, c: byte) returns (after: seq<Page>, to: nat)
      requires Valid() && Ring(bufs[..], first, count, secondary, at) && |memory| == bufs.Length
      modifies bufs, this`active
      ensures Valid() && Ring(bufs[..], first, count, secondary, to) && OthersSame(bufs[..], old(bufs[..]), first, count)
      ensures first <= at < first + count <= bufs.Length && first <= to < first + count
      ensures |after| == |memory| && OtherPages(after, memory, first, count)
      ensures var o := Following(old(HeadOf(bufs[..], first, at)), count);
              o < 256 * count && Contiguous(after, first, count) == Contiguous(memory, first, count)[o := c]
      ensures HeadOf(bufs[..], first, to) == AfterByte(old(HeadOf(bufs[..], first, at)), count)
    {
      hide Total, Contiguous, Ring, OthersSame;
      RingBounds(bufs[..], first, count, secondary, at);
      NothingChanged(bufs[..], first, count);
      to := at;
      if bufs[at].mustflush {
        to := Refill(first, count, secondary, at);
        RingBounds(bufs[..], first, count, secondary, to);
      }
      ghost var before := bufs[..];
      var p := bufs[to].position;
      ContiguousPut(memory, first, count, to - first, p as nat, c);
      after := memory[to := memory[to][p := c]];
      StepMember(first, count, secondary, to);
      OthersSameTwice(bufs[..], before, old(bufs[..]), first, count);
    }

    /** The fields of a member after a byte has been stored. */
    method StepMember(first: nat, count: nat, secondary: byte, at: nat)
      requires Valid() && Ring(bufs[..], first, count, secondary, at)
      modifies bufs, this`active
      ensures Valid() && Ring(bufs[..], first, count, secondary, at) && OthersSame(bufs[..], old(bufs[..]), first, count)
      ensures first <= at < first + count <= bufs.Length
      ensures bufs[at].position == (old(bufs[at].position) + 1) % 256
      ensures bufs[at].mustflush == (old(bufs[at].mustflush) || bufs[at].position == 0)
    {
      ghost var was := bufs[..];
      assert Member(was[at], first, count, secondary, at, at);
      MarkDirty(at, true);
      var position := (bufs[at].position + 1) % 256;
      Set(at, bufs[at].(position := position, mustflush := bufs[at].mustflush || position == 0));
      forall j | first <= j < first + count ensures Member(bufs[..][j], first, count, secondary, j, at) {
        assert Member(was[j], first, count, secondary, j, at);
      }
    }

    /** One byte further: to the next position, or to the first one of the next member. */
    method Advance(first: nat, count: nat, secondary: byte, at: nat) returns (to: nat)
      requires Valid() && Ring(bufs[..], first, count, secondary, at)
      modifies bufs
      ensures Valid() && Ring(bufs[..], first, count, secondary, to) && OthersSame(bufs[..], old(bufs[..]), first, count)
      ensures first <= at < first + count <= bufs.Length && first <= to < first + count
      ensures HeadOf(bufs[..], first, to) == AfterRead(old(HeadOf(bufs[..], first, at)), count)
    {
      ghost var was := bufs[..];
      assert Member(was[at], first, count, secondary, at, at);
      if bufs[at].position < bufs[at].lastused {
        to := at;
        Set(at, bufs[at].(position := bufs[at].position + 1));
        forall j | first <= j < first + count ensures Member(bufs[..][j], first, count, secondary, j, at) {
          assert Member(was[j], first, count, secondary, j, at);
        }
      } else {
        to := Refill(first, count, secondary, at);
      }
    }

    /** largebuffer_cleanup frees every member and nothing else. */
    method FreeLarge(first: nat, count: nat, secondary: byte, at: nat)
      requires Valid() && Ring(bufs[..], first, count, secondary, at) && secondary < 15
      modifies bufs, this`active
      ensures Valid() && OthersSame(bufs[..], old(bufs[..]), first, count)
      ensures forall k :: first <= k < first + count ==> !bufs[k].taken
    {
      ghost var was := bufs[..];
      var buf := first;
      ghost var k := first;
      while buf != END
        invariant first <= k <= first + count && Valid() && buf == (if k < first + count then k else END)
        invariant forall j :: 0 <= j < bufs.Length ==> bufs[j] == if first <= j < k then was[j].(taken := false) else was[j]
        decreases first + count - k
      {
        assert Member(was[k], first, count, secondary, k, at);
        Free(buf);
        buf := bufs[buf].next;
        k := k + 1;
      }
    }
  }

  lemma RingBounds(bufs: seq<Buf>, first: nat, count: nat, secondary: byte, at: nat)
    requires Ring(bufs, first, count, secondary, at)
    ensures 1 <= count && first <= at < first + count <= |bufs|
  {}

  function HeadOf(bufs: seq<Buf>, first: nat, at: nat): Head
    requires first <= at < |bufs|
  {
    Head(at - first, bufs[at].position, bufs[at].mustflush)
  }

  /** The byte at a place lies in the page of the active member. */
  lemma PlaceAt(memory: seq<Page>, first: nat, count: nat, h: Head)
    requires first + count <= |memory| && h.member < count
    ensures Place(h) < 256 * count && Contiguous(memory, first, count)[Place(h)] == memory[first + h.member][h.position]
  {
    ContiguousAt(memory, first, count, h.member, h.position as nat);
  }

  lemma OthersSameTwice(now: seq<Buf>, between: seq<Buf>, was: seq<Buf>, first: nat, count: nat)
    requires OthersSame(now, between, first, count) && OthersSame(between, was, first, count)
    ensures OthersSame(now, was, first, count)
  {}

  lemma NothingChanged(bufs: seq<Buf>, first: nat, count: nat)
    ensures OthersSame(bufs, bufs, first, count)
  {}

  lemma {:induction false} NoneAllocated(bufs: seq<Buf>)
    requires forall i :: 0 <= i < |bufs| ==> !bufs[i].taken
    ensures Total(bufs) == 0
  {
    if bufs != [] {
      NoneAllocated(bufs[..|bufs| - 1]);
    }
  }

  /** So many free neighbours. */
  predicate FreeRun(bufs: seq<Buf>, start: nat, count: nat) {
    start + count <= |bufs| && forall k :: start <= k < start + count ==> !bufs[k].taken
  }

  lemma BrokenRun(bufs: seq<Buf>, i: nat, free: nat, count: nat)
    requires i < |bufs| && bufs[i].taken && free <= i && free < count
    requires forall s: nat :: s < i - free ==> !FreeRun(bufs, s, count)
    ensures forall s: nat :: s < i + 1 ==> !FreeRun(bufs, s, count)
  {
    forall s: nat | s < i + 1 ensures !FreeRun(bufs, s, count) {
      assert FreeRun(bufs, s, count) ==> i < s || i >= s + count;
    }
  }

  /** Member number j when a large buffer is opened. */
  function Linked(first: nat, count: nat, j: nat, secondary: byte): Buf
    requires secondary <= 15
  {
    Buf(true, if j == first then secondary else CHAIN - secondary, false, 0, 255, false, j + 1 == first + count,
        first, if j + 1 < first + count then j + 1 else END, count)
  }

  ghost predicate OtherPages(after: seq<Page>, memory: seq<Page>, first: nat, count: nat)
    requires |after| == |memory|
  {
    forall j :: 0 <= j < |memory| && !(first <= j < first + count) ==> after[j] == memory[j]
  }

  ghost predicate OthersSame(now: seq<Buf>, was: seq<Buf>, first: nat, count: nat) {
    |now| == |was| && forall j :: 0 <= j < |now| && !(first <= j < first + count) ==> now[j] == was[j]
  }
}

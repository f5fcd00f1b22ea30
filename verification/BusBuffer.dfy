/** The byte-to-buffer logic of the serial bus, for files in images and in the EEPROM alike: bytes arrive
    from position 2 on, and leave from there (src/iec.c, iec_listen_handler and iec_talk_handler). */
module BusBuffer {
  import opened Bits

  type Data = s: seq<byte> | |s| == 256 witness seq(256, _ => 0)

  const ROOM := 254

  /** The buffer holds these bytes, and position and lastused tell how many. */
  predicate Holding(data: Data, position: byte, lastused: byte, bytes: seq<byte>) {
    && |bytes| <= ROOM && data[2..][..|bytes|] == bytes
    && position == (if |bytes| == ROOM then 0 else |bytes| + 2)
    && (|bytes| > 0 ==> lastused == |bytes| + 1)
  }

  lemma HeldSlice(data: Data, position: byte, lastused: byte, bytes: seq<byte>)
    requires Holding(data, position, lastused, bytes) && bytes != []
    ensures data[2..lastused + 1] == bytes
  {
    assert data[2..lastused + 1] == data[2..][..|bytes|];
  }

  /** The storing half of the loop of iec_listen_handler: the byte is the next one of those held; with the
      last one the position wraps around and the buffer waits to be flushed. */
  method StoreByte(data: Data, position: byte, lastused: byte, ghost bytes: seq<byte>, c: byte)
    returns (after: Data, next: byte, used: byte, mustflush: bool)
    requires Holding(data, position, lastused, bytes) && |bytes| < ROOM && (bytes == [] ==> lastused <= 2)
    ensures Holding(after, next, used, bytes + [c])
    ensures (mustflush <==> next == 0) && (mustflush <==> |bytes| + 1 == ROOM)
  {
    after := data[position := c];
    assert data[2..][..|bytes|] == after[2..][..|bytes|];
    assert after[2..][..|bytes| + 1] == after[2..][..|bytes|] + [c];
    used := if lastused < position then position else lastused;
    next := if position == 255 then 0 else position + 1;
    mustflush := next == 0;
  }

  /** The sending loop of iec_talk_handler: at least the byte at position 2, and those up to the last one
      used. */
  method SendBuffer(data: Data, lastused: byte) returns (sent: seq<byte>)
    ensures sent == data[2..(if lastused < 2 then 2 else lastused) + 1]
  {
    var position: nat := 2;
    sent := [data[2]];
    while position < lastused as nat
      invariant 2 <= position <= (if lastused < 2 then 2 else lastused) && sent == data[2..position + 1]
    {
      position := position + 1;
      sent := sent + [data[position]];
    }
  }
}

/** File names on FAT media in extension mode 5: bytes that FAT does not allow are written as pairs of
    hexadecimal digits between braces (src/fatops.c, petscii_to_fat and fat_to_petscii). A C string is
    the sequence of its bytes before the terminating zero. */
module NameCodec {
  import opened Bits

  const OPEN: byte := 0x7b
  const CLOSE: byte := 0x7d
  const DOT: byte := 0x2e
  const PADDING: byte := 160
  const FAT_LENGTH := 40     // maxlen in every call of petscii_to_fat
  const BUFFER_LENGTH := 45  // fatfs_yAbuffer

  // ---- Reserved names ----------------------------------------------------------------

  const RESERVED: seq<seq<byte>> := [
    [67, 79, 78], [80, 82, 78], [65, 85, 88], [78, 85, 76],
    [67, 79, 77, 49], [67, 79, 77, 50], [67, 79, 77, 51], [67, 79, 77, 52], [67, 79, 77, 53],
    [67, 79, 77, 54], [67, 79, 77, 55], [67, 79, 77, 56], [67, 79, 77, 57],
    [76, 80, 84, 49], [76, 80, 84, 50], [76, 80, 84, 51], [76, 80, 84, 52], [76, 80, 84, 53],
    [76, 80, 84, 54], [76, 80, 84, 55], [76, 80, 84, 56], [76, 80, 84, 57]]

  /** The name is this reserved name, or it with anything behind a dot. */
  predicate Matches(name: seq<byte>, reserved: seq<byte>) {
    reserved <= name && (|name| == |reserved| || name[|reserved|] == DOT)
  }

  predicate IsReserved(name: seq<byte>) {
    exists k :: 0 <= k < |RESERVED| && Matches(name, RESERVED[k])
  }

  // ---- Encoding ---------------------------------------------------------------------------

  /** Bytes that are written in hexadecimal; a dot only as the first character. */
  predicate Special(p: byte, first: bool) {
    p < 32 || p >= 96 || p in [58, 47, 92, 42, 34, 60, 62, 63] || (first && p == DOT)
  }

  function Hex(d: byte): byte
    requires d < 16
  {
    if d < 10 then 48 + d else 65 + d - 10
  }

  /** The name without its trailing shifted spaces. */
  function Strip(name: seq<byte>): (r: seq<byte>)
    ensures r <= name && (r != [] ==> r[|r| - 1] != PADDING)
    ensures forall j :: |r| <= j < |name| ==> name[j] == PADDING
  {
    if name != [] && name[|name| - 1] == PADDING then Strip(name[..|name| - 1]) else name
  }

  /** What is written in front of a byte. */
  function Brace(special: bool, escape: bool): seq<byte> {
    if special && !escape then [OPEN] else if !special && escape then [CLOSE] else []
  }

  function Written(p: byte, first: bool, escape: bool): seq<byte> {
    Brace(Special(p, first), escape) + if Special(p, first) then [Hex(p / 16), Hex(p % 16)] else [p]
  }

  /** The check in front of every byte: does it fit, with a closing brace? */
  predicate Fitting(p: byte, first: bool, i: nat, maxlen: nat) {
    i + (if Special(p, first) then 4 else 2) <= maxlen
  }

  /** Inside braces behind the first n bytes. */
  predicate EscapeAt(s: seq<byte>, n: nat)
    requires n <= |s|
  {
    n > 0 && Special(s[n - 1], n == 1)
  }

  /** What is written for the n-th byte. */
  function Step(s: seq<byte>, n: nat): seq<byte>
    requires n < |s|
  {
    Written(s[n], n == 0, EscapeAt(s, n))
  }

  /** Position in the output behind the first n bytes, starting at i. */
  function Position(s: seq<byte>, n: nat, i: nat): (r: nat)
    requires n <= |s|
    ensures r >= i + n
  {
    if n == 0 then i else Position(s, n - 1, i) + |Step(s, n - 1)|
  }

  /** The n-th byte is written. */
  predicate Fits(s: seq<byte>, n: nat, i: nat, maxlen: nat)
    requires n < |s|
  {
    Fitting(s[n], n == 0, Position(s, n, i), maxlen)
  }

  function Closing(s: seq<byte>, n: nat): seq<byte>
    requires n <= |s|
  {
    if EscapeAt(s, n) then [CLOSE] else []
  }

  /** What is written from the n-th byte on. */
  function Rest(s: seq<byte>, n: nat, i: nat, maxlen: nat): seq<byte>
    requires n <= |s|
    decreases |s| - n
  {
    if n == |s| || !Fits(s, n, i, maxlen) then Closing(s, n) else Step(s, n) + Rest(s, n + 1, i, maxlen)
  }

  function Upper(c: byte): byte {
    if 97 <= c <= 122 then c - 32 else c
  }

  const EXTENSIONS: seq<seq<byte>> := [[46, 80, 82, 71], [46, 83, 69, 81], [46, 85, 83, 82], [46, 82, 69, 76]]

  /** Ends in .prg, .seq, .usr or .rel, in any case. */
  predicate LooksLikeType(x: seq<byte>) {
    |x| > 3 && seq(4, i requires 0 <= i < 4 => Upper(x[|x| - 4 + i])) in EXTENSIONS
  }

  function Prefix(name: seq<byte>): seq<byte> {
    if IsReserved(name) then [OPEN, CLOSE] else []
  }

  /** petscii_to_fat */
  function Encode(name: seq<byte>, maxlen: nat): seq<byte> {
    var x := Prefix(name) + Rest(Strip(name), 0, |Prefix(name)|, maxlen);
    if LooksLikeType(x) then x + [OPEN, CLOSE] else x
  }

  // ---- Decoding -------------------------------------------------------------------------------

  predicate IsHex(c: byte) {
    48 <= c <= 57 || 65 <= c <= 70 || 97 <= c <= 102
  }

  function HexValue(c: byte): (r: byte)
    requires IsHex(c)
    ensures r < 16
  {
    if c <= 57 then c - 48 else if c <= 70 then c - 55 else c - 87
  }

  /** fat_to_petscii on the rest of the string, with room for so many more bytes. */
  function Decoded(fat: seq<byte>, escape: bool, room: nat): (r: seq<byte>)
    ensures |r| <= room
    decreases |fat|, if escape then 2 else 0
  {
    if fat == [] || room == 0 then []
    else if fat[0] == OPEN then Pair(fat[1..], room)
    else if escape then Pair(fat, room)
    else if fat[0] == CLOSE then Decoded(fat[1..], false, room)
    else [Upper(fat[0])] + Decoded(fat[1..], false, room - 1)
  }

  /** Inside braces: two digits, or the end of the braces, or of the string. */
  function Pair(fat: seq<byte>, room: nat): (r: seq<byte>)
    requires room > 0
    ensures |r| <= room
    decreases |fat|, 1
  {
    if |fat| < 2 then []
    else if IsHex(fat[0]) && IsHex(fat[1]) then [16 * HexValue(fat[0]) + HexValue(fat[1])] + Decoded(fat[2..], true, room - 1)
    else Decoded(fat, false, room)
  }

  function Decode(fat: seq<byte>, room: nat): seq<byte> {
    Decoded(fat, false, room)
  }

  // ---- Decoding an encoded name ----------------------------------------------------------------------

  /** Number of bytes written before the output is full. */
  function Kept(s: seq<byte>, n: nat, i: nat, maxlen: nat): (r: nat)
    requires n <= |s|
    ensures n <= r <= |s|
    decreases |s| - n
  {
    if n == |s| || !Fits(s, n, i, maxlen) then n else Kept(s, n + 1, i, maxlen)
  }

  function Taken(s: seq<byte>, n: nat, m: nat, room: nat): seq<byte>
    requires n <= m <= |s|
  {
    if room < m - n then s[n..n + room] else s[n..m]
  }

  lemma HexBack(p: byte)
    ensures IsHex(Hex(p / 16)) && IsHex(Hex(p % 16)) && 16 * HexValue(Hex(p / 16)) + HexValue(Hex(p % 16)) == p
  {}

  /** The closing of an encoded name, and the empty braces behind a type-like ending, decode to nothing. */
  lemma EndDecodes(escape: bool, tail: seq<byte>, room: nat)
    requires tail == [] || tail == [OPEN, CLOSE]
    ensures Decoded((if escape then [CLOSE] else []) + tail, escape, room) == []
  {
    assert Pair([CLOSE], 1) == [];
    if room > 0 {
      assert [OPEN, CLOSE][1..] == [CLOSE] && Decoded([OPEN, CLOSE], false, room) == [];
      if escape && tail != [] {
        var fat := [CLOSE] + tail;
        assert fat[1..] == tail;
        assert Decoded(fat, false, room) == Decoded(tail, false, room);
        assert !IsHex(fat[0]) && Pair(fat, room) == Decoded(fat, false, room);
      }
    }
  }

  /** One byte written, one byte read. */
  lemma StepDecodes(s: seq<byte>, n: nat, rest: seq<byte>, room: nat)
    requires n < |s| && room > 0
    ensures Decoded(Step(s, n) + rest, EscapeAt(s, n), room) == [s[n]] + Decoded(rest, EscapeAt(s, n + 1), room - 1)
  {
    var p, escape := s[n], EscapeAt(s, n);
    var fat := Step(s, n) + rest;
    if Special(p, n == 0) {
      HexBack(p);
      var digits := [Hex(p / 16), Hex(p % 16)] + rest;
      assert digits[2..] == rest;
      if escape {
        assert fat == digits;
      } else {
        assert fat[1..] == digits;
      }
    } else if escape {
      assert fat[1..] == [p] + rest && ([p] + rest)[1..] == rest;
      assert !IsHex(fat[0]) && Pair(fat, room) == Decoded(fat, false, room) == Decoded([p] + rest, false, room);
    } else {
      assert fat[1..] == rest;
    }
  }

  lemma {:induction false} RestDecodes(s: seq<byte>, n: nat, i: nat, maxlen: nat, tail: seq<byte>, room: nat)
    requires n <= |s| && (tail == [] || tail == [OPEN, CLOSE])
    ensures Decoded(Rest(s, n, i, maxlen) + tail, EscapeAt(s, n), room) == Taken(s, n, Kept(s, n, i, maxlen), room)
    decreases |s| - n
  {
    hide Decoded, Position, Step, Fits, EscapeAt, Taken;
    TakenAt(s, n, Kept(s, n, i, maxlen), room);
    if n == |s| || !Fits(s, n, i, maxlen) {
      assert Kept(s, n, i, maxlen) == n && Rest(s, n, i, maxlen) == Closing(s, n);
      EndDecodes(EscapeAt(s, n), tail, room);
    } else if room == 0 {
      NoRoom(Rest(s, n, i, maxlen) + tail, EscapeAt(s, n));
    } else {
      var rest := Rest(s, n + 1, i, maxlen) + tail;
      assert Rest(s, n, i, maxlen) + tail == Step(s, n) + rest;
      StepDecodes(s, n, rest, room);
      RestDecodes(s, n + 1, i, maxlen, tail, room - 1);
    }
  }

  lemma TakenAt(s: seq<byte>, n: nat, m: nat, room: nat)
    requires n <= m <= |s|
    ensures Taken(s, n, m, room) == if n == m || room == 0 then [] else [s[n]] + Taken(s, n + 1, m, room - 1)
  {}

  lemma NoRoom(fat: seq<byte>, escape: bool)
    ensures Decoded(fat, escape, 0) == []
  {}

  /** The empty braces in front of a reserved name decode to nothing. */
  lemma PrefixDecodes(x: seq<byte>, room: nat)
    ensures Decoded([OPEN, CLOSE] + x, false, room) == Decoded(x, false, room)
  {
    if room > 0 {
      var fat := [OPEN, CLOSE] + x;
      assert fat[1..] == [CLOSE] + x && ([CLOSE] + x)[1..] == x;
      if x != [] {
        assert Pair([CLOSE] + x, room) == Decoded([CLOSE] + x, false, room) == Decoded(x, false, room);
      }
    }
  }

  /** For every name, every limit and every size of the target: decoding the encoded name gives a prefix
      of the name without its trailing shifted spaces, cut off where the encoder ran out of space or the
      target is full. */
  lemma DecodeEncode(name: seq<byte>, maxlen: nat, room: nat)
    ensures var s := Strip(name);
            Decode(Encode(name, maxlen), room) == Taken(s, 0, Kept(s, 0, |Prefix(name)|, maxlen), room)
  {
    hide Decoded, Rest, Kept, Strip, IsReserved, LooksLikeType;
    var s, prefix := Strip(name), Prefix(name);
    var x := Rest(s, 0, |prefix|, maxlen);
    var tail := if LooksLikeType(prefix + x) then [OPEN, CLOSE] else [];
    assert Encode(name, maxlen) == prefix + (x + tail);
    RestDecodes(s, 0, |prefix|, maxlen, tail, room);
    if prefix != [] {
      PrefixDecodes(x + tail, room);
    } else {
      assert prefix + (x + tail) == x + tail;
    }
  }

  // ---- When nothing is cut off ------------------------------------------------------------------------------

  /** The last byte fits. */
  predicate AllFit(s: seq<byte>, i: nat, maxlen: nat) {
    s == [] || Fits(s, |s| - 1, i, maxlen)
  }

  lemma FitsBefore(s: seq<byte>, n: nat, i: nat, maxlen: nat)
    requires n + 1 < |s| && Fits(s, n + 1, i, maxlen)
    ensures Fits(s, n, i, maxlen)
  {}

  lemma {:induction false} KeptAll(s: seq<byte>, n: nat, i: nat, maxlen: nat)
    requires n <= |s|
    ensures Kept(s, n, i, maxlen) == |s| <==> (n == |s| || Fits(s, |s| - 1, i, maxlen))
    decreases |s| - n
  {
    hide Fits;
    if n + 1 < |s| {
      KeptAll(s, n + 1, i, maxlen);
      if Fits(s, |s| - 1, i, maxlen) {
        FitsFrom(s, n, |s| - 1, i, maxlen);
      }
    } else if n < |s| {
      KeptAll(s, n + 1, i, maxlen);
    }
  }

  lemma {:induction false} FitsFrom(s: seq<byte>, n: nat, m: nat, i: nat, maxlen: nat)
    requires n <= m < |s| && Fits(s, m, i, maxlen)
    ensures Fits(s, n, i, maxlen)
    decreases m - n
  {
    hide Fits;
    if n < m {
      FitsBefore(s, m - 1, i, maxlen);
      FitsFrom(s, n, m - 1, i, maxlen);
    }
  }

  /** A directory name of at most 16 bytes comes back, without trailing shifted spaces, if and only if its
      last byte fits. */
  lemma RoundTripIff(name: seq<byte>)
    requires |name| <= 16
    ensures Decode(Encode(name, FAT_LENGTH), 20) == Strip(name) <==> AllFit(Strip(name), |Prefix(name)|, FAT_LENGTH)
  {
    hide Decode, Encode, Kept, Strip, Prefix, Fits;
    var s := Strip(name);
    DecodeEncode(name, FAT_LENGTH, 20);
    KeptAll(s, 0, |Prefix(name)|, FAT_LENGTH);
  }

  /** So the encoding is transparent, as the repository's README says, exactly for the names that do not end
      in a shifted space and whose last byte fits. */
  lemma TransparentIff(name: seq<byte>)
    requires |name| <= 16
    ensures Decode(Encode(name, FAT_LENGTH), 20) == name <==> (name == [] || name[|name| - 1] != PADDING) && AllFit(name, |Prefix(name)|, FAT_LENGTH)
  {
    hide Decode, Encode, Kept, Prefix, Fits;
    RoundTripIff(name);
    DecodeEncode(name, FAT_LENGTH, 20);
    if Strip(name) != name {
      StripShortens(name);
    }
  }

  lemma StripShortens(name: seq<byte>)
    requires Strip(name) != name
    ensures name != [] && name[|name| - 1] == PADDING && |Strip(name)| < |name|
  {}

  /** Number of bytes among the first n that are written in hexadecimal. */
  function Specials(s: seq<byte>, n: nat): (r: nat)
    requires n <= |s|
    ensures r <= n
  {
    if n == 0 then 0 else Specials(s, n - 1) + if Special(s[n - 1], n == 1) then 1 else 0
  }

  /** How long the output can become: two and a half bytes each, and one each and three more for every
      one in hexadecimal. */
  lemma {:induction false} PositionBound(s: seq<byte>, n: nat, i: nat)
    requires n <= |s|
    ensures var e := if EscapeAt(s, n) then 1 else 0;
            2 * Position(s, n, i) <= 2 * i + 5 * n + e && Position(s, n, i) + e <= i + n + 3 * Specials(s, n)
  {
    hide Special;
    if n > 0 {
      PositionBound(s, n - 1, i);
    }
  }

  /** A reserved name begins with three letters, which are written as they are. */
  lemma ReservedLetters(name: seq<byte>)
    requires IsReserved(name)
    ensures |name| >= 3 && forall j :: 0 <= j < 3 ==> 65 <= name[j] <= 90
  {
    var k :| 0 <= k < |RESERVED| && Matches(name, RESERVED[k]);
    assert |RESERVED[k]| >= 3 && forall j :: 0 <= j < 3 ==> 65 <= RESERVED[k][j] <= 90;
    assert forall j :: 0 <= j < 3 ==> name[j] == RESERVED[k][j];
  }

  /** A reserved name is shorter by more than its extra braces. */
  lemma {:induction false} ReservedBound(s: seq<byte>, n: nat, i: nat)
    requires 3 <= n <= |s| && forall j :: 0 <= j < 3 ==> 65 <= s[j] <= 90
    ensures var e := if EscapeAt(s, n) then 1 else 0;
            2 * Position(s, n, i) + 9 <= 2 * i + 5 * n + e && Position(s, n, i) + e <= i + n + 3 * Specials(s, n)
    decreases n
  {
    PositionBound(s, n, i);
    if n > 3 {
      hide Special;
      ReservedBound(s, n - 1, i);
    } else {
      assert !EscapeAt(s, 3) && !EscapeAt(s, 2) && !EscapeAt(s, 1);
      StepLength(s, 0);
      StepLength(s, 1);
      StepLength(s, 2);
      assert Position(s, 1, i) == Position(s, 0, i) + |Step(s, 0)|;
      assert Position(s, 2, i) == Position(s, 1, i) + |Step(s, 1)|;
    }
  }

  lemma StripReserved(name: seq<byte>)
    requires IsReserved(name)
    ensures |Strip(name)| >= 3 && forall j :: 0 <= j < 3 ==> 65 <= Strip(name)[j] <= 90
  {
    hide IsReserved;
    ReservedLetters(name);
    var s := Strip(name);
    assert name[2] != PADDING;
    assert forall j :: 0 <= j < |s| ==> s[j] == name[j];
  }

  /** Every name of at most 15 bytes, and every name of at most 16 bytes of which at most 8 are written in
      hexadecimal, comes back. */
  lemma ShortNamesFit(name: seq<byte>)
    requires |name| <= 15 || (|name| == 16 && Specials(Strip(name), |Strip(name)|) <= 8)
    ensures Decode(Encode(name, FAT_LENGTH), 20) == Strip(name)
  {
    hide Decode, Encode, Strip, IsReserved, Special;
    var s, i := Strip(name), |Prefix(name)|;
    RoundTripIff(name);
    if s != [] {
      PositionBound(s, |s| - 1, i);
      if i > 0 {
        StripReserved(name);
        if |s| > 3 {
          ReservedBound(s, |s| - 1, i);
        }
      }
    }
  }

  /** Sixteen bytes that do not come back: two controls, a letter, then six times a control and a letter,
      then a control. */
  function TooLong(): seq<byte> {
    [1, 1, 65, 1, 65, 1, 65, 1, 65, 1, 65, 1, 65, 1, 65, 1]
  }

  lemma NameCutOff()
    ensures |TooLong()| == 16 && Strip(TooLong()) == TooLong()
    ensures Decode(Encode(TooLong(), FAT_LENGTH), 20) != Strip(TooLong())
  {
    hide IsReserved, Decode, Encode;
    var s := TooLong();
    assert s[0] == 1;
    if IsReserved(s) {
      ReservedLetters(s);
    }
    PairsOfSteps(s, 0, 7);
    RoundTripIff(s);
    assert Prefix(s) == [] && Strip(s) == s && |s| - 1 == 15;
    assert Special(s[15], false) && Position(s, 15, 0) == 37;
    assert !Fits(s, 15, 0, FAT_LENGTH);
  }

  lemma StepLength(s: seq<byte>, n: nat)
    requires n < |s|
    ensures |Step(s, n)| == (if Special(s[n], n == 0) then 2 else 1) + (if Special(s[n], n == 0) != EscapeAt(s, n) then 1 else 0)
  {
    hide Special;
  }

  /** A control and a letter take five places. */
  lemma {:induction false} PairsOfSteps(s: seq<byte>, i: nat, pairs: nat)
    requires s == TooLong() && 1 <= pairs <= 7
    ensures Position(s, 2 * pairs + 1, i) == i + 2 + 5 * pairs
  {
    hide Special, Step, TooLong;
    Controls(s);
    StepLength(s, 2 * pairs - 1);
    StepLength(s, 2 * pairs);
    if pairs == 1 {
      StepLength(s, 0);
      assert Position(s, 1, i) == i + |Step(s, 0)| == i + 3;
      assert Position(s, 2, i) == Position(s, 1, i) + |Step(s, 1)| == i + 5;
    } else {
      PairsOfSteps(s, i, pairs - 1);
      var n := 2 * pairs - 1;
      assert Position(s, n + 1, i) == Position(s, n, i) + |Step(s, n)|;
      assert Position(s, n + 2, i) == Position(s, n + 1, i) + |Step(s, n + 1)|;
    }
  }

  lemma Controls(s: seq<byte>)
    requires s == TooLong()
    ensures |s| == 16 && forall n, first :: 0 <= n < 16 ==> (Special(s[n], first) <==> n == 0 || n % 2 == 1)
  {}

  // ---- How long the output becomes ----------------------------------------------------------------------

  /** Everything written for the first n bytes. */
  function Out(s: seq<byte>, n: nat): seq<byte>
    requires n <= |s|
  {
    if n == 0 then [] else Out(s, n - 1) + Step(s, n - 1)
  }

  lemma {:induction false} RestIsOut(s: seq<byte>, n: nat, i: nat, maxlen: nat)
    requires n <= |s|
    ensures var k := Kept(s, n, i, maxlen); Out(s, n) + Rest(s, n, i, maxlen) == Out(s, k) + Closing(s, k)
    decreases |s| - n
  {
    hide Fits, Step;
    if n < |s| && Fits(s, n, i, maxlen) {
      RestIsOut(s, n + 1, i, maxlen);
      assert Out(s, n) + (Step(s, n) + Rest(s, n + 1, i, maxlen)) == Out(s, n + 1) + Rest(s, n + 1, i, maxlen);
    }
  }

  lemma {:induction false} OutLength(s: seq<byte>, n: nat, i: nat)
    requires n <= |s|
    ensures |Out(s, n)| + i == Position(s, n, i)
  {
    if n > 0 {
      OutLength(s, n - 1, i);
    }
  }

  /** The checks leave room for the closing brace. */
  lemma {:induction false} KeptFits(s: seq<byte>, n: nat, i: nat, maxlen: nat)
    requires n <= |s| && Position(s, n, i) + |Closing(s, n)| <= maxlen
    ensures var k := Kept(s, n, i, maxlen); Position(s, k, i) + |Closing(s, k)| <= maxlen
    decreases |s| - n
  {
    hide Fits, Position, Closing;
    if n < |s| && Fits(s, n, i, maxlen) {
      FittingStep(s, n, i, maxlen);
      KeptFits(s, n + 1, i, maxlen);
    }
  }

  lemma FittingStep(s: seq<byte>, n: nat, i: nat, maxlen: nat)
    requires n < |s| && Position(s, n, i) + |Closing(s, n)| <= maxlen && Fits(s, n, i, maxlen)
    ensures Position(s, n + 1, i) + |Closing(s, n + 1)| <= maxlen
  {}

  /** The output of the loop, and its length. */
  lemma LoopOutput(name: seq<byte>, maxlen: nat)
    requires maxlen >= 2
    ensures var s, prefix := Strip(name), Prefix(name); var k := Kept(s, 0, |prefix|, maxlen);
            && Rest(s, 0, |prefix|, maxlen) == Out(s, k) + Closing(s, k)
            && |prefix + Rest(s, 0, |prefix|, maxlen)| == Position(s, k, |prefix|) + |Closing(s, k)| <= maxlen
  {
    hide Strip, IsReserved, Kept, Rest, Special, Step;
    var s, i := Strip(name), |Prefix(name)|;
    var k := Kept(s, 0, i, maxlen);
    RestIsOut(s, 0, i, maxlen);
    assert Out(s, 0) + Rest(s, 0, i, maxlen) == Rest(s, 0, i, maxlen);
    OutLength(s, k, i);
    KeptFits(s, 0, i, maxlen);
  }

  /** For every name and every limit the output is at most two bytes longer than the limit. */
  lemma EncodedLength(name: seq<byte>, maxlen: nat)
    requires maxlen >= 2
    ensures |Encode(name, maxlen)| <= maxlen + 2
  {
    hide Strip, IsReserved, Kept, Rest, LooksLikeType;
    LoopOutput(name, maxlen);
  }

  /** A last byte of the output that is no brace stands for itself. */
  lemma PlainBefore(s: seq<byte>, n: nat, x: seq<byte>, c: byte)
    requires n <= |s| && x + [c] == Out(s, n) + Closing(s, n) && c != CLOSE
    ensures n > 0 && !EscapeAt(s, n) && s[n - 1] == c && x == Out(s, n - 1) + Closing(s, n - 1)
  {
    var y := Out(s, n) + Closing(s, n);
    assert y[|y| - 1] == c;
    assert x == y[..|y| - 1];
    assert n > 0;
    assert Step(s, n - 1) == Closing(s, n - 1) + [s[n - 1]];
    assert y == (Out(s, n - 1) + Closing(s, n - 1)) + [s[n - 1]];
  }

  /** Four last bytes that look like a type: nothing among them is in hexadecimal. */
  lemma TypeIsPlain(s: seq<byte>, n: nat, x: seq<byte>)
    requires n <= |s| && x == Out(s, n) + Closing(s, n) && |x| > 3 && forall j :: |x| - 4 <= j < |x| ==> x[j] != CLOSE
    ensures n >= 4 && Position(s, n, 0) == Position(s, n - 4, 0) + |Closing(s, n - 4)| + 4 && !EscapeAt(s, n)
  {
    hide Out, Closing, Position;
    var m := |x|;
    assert x == x[..m - 1] + [x[m - 1]];
    PlainBefore(s, n, x[..m - 1], x[m - 1]);
    assert x[..m - 1] == x[..m - 2] + [x[m - 2]];
    PlainBefore(s, n - 1, x[..m - 2], x[m - 2]);
    assert x[..m - 2] == x[..m - 3] + [x[m - 3]];
    PlainBefore(s, n - 2, x[..m - 3], x[m - 3]);
    assert x[..m - 3] == x[..m - 4] + [x[m - 4]];
    PlainBefore(s, n - 3, x[..m - 4], x[m - 4]);
    LengthOfPlain(s, n, x);
  }

  lemma LengthOfPlain(s: seq<byte>, n: nat, x: seq<byte>)
    requires 4 <= n <= |s| && x == Out(s, n) + Closing(s, n) && !EscapeAt(s, n) && |x| > 3
    requires x[..|x| - 4] == Out(s, n - 4) + Closing(s, n - 4)
    ensures Position(s, n, 0) == Position(s, n - 4, 0) + |Closing(s, n - 4)| + 4
  {
    hide Out, Position;
    OutLength(s, n, 0);
    OutLength(s, n - 4, 0);
    assert |x[..|x| - 4]| == |x| - 4;
  }

  lemma {:induction false} PositionShift(s: seq<byte>, n: nat, i: nat)
    requires n <= |s|
    ensures Position(s, n, i) == i + Position(s, n, 0)
  {
    if n > 0 {
      PositionShift(s, n - 1, i);
    }
  }

  lemma TypeHasNoBrace(x: seq<byte>)
    requires LooksLikeType(x)
    ensures |x| > 3 && forall j :: |x| - 4 <= j < |x| ==> x[j] != CLOSE
  {
    var last := seq(4, i requires 0 <= i < 4 => Upper(x[|x| - 4 + i]));
    assert last[0] in [46] && last[1] in [80, 83, 85, 82] && last[2] in [82, 69, 83] && last[3] in [71, 81, 82, 76];
    forall j | |x| - 4 <= j < |x| ensures x[j] != CLOSE {
      assert last[j - (|x| - 4)] == Upper(x[j]);
    }
  }

  lemma TypeBehindPrefix(prefix: seq<byte>, x: seq<byte>)
    requires LooksLikeType(prefix + x) && (prefix == [] || prefix == [OPEN, CLOSE])
    ensures |x| > 3 && forall j :: |x| - 4 <= j < |x| ==> x[j] != CLOSE
  {
    hide LooksLikeType;
    TypeHasNoBrace(prefix + x);
    assert prefix != [] ==> (prefix + x)[1] == CLOSE;
    forall j | |x| - 4 <= j < |x| ensures j >= 0 && x[j] != CLOSE {
      assert (prefix + x)[|prefix| + j] == x[j];
    }
  }

  /** The encoded form of a directory name with the dot, the type and the terminating zero that build_name
      adds never leaves its buffer. */
  lemma BufferFits(name: seq<byte>)
    requires |name| <= 16
    ensures |Encode(name, FAT_LENGTH)| + 5 <= BUFFER_LENGTH
  {
    hide Strip, IsReserved, Kept, Rest, LooksLikeType, Out, Position, EscapeAt;
    LoopOutput(name, FAT_LENGTH);
    var s, prefix := Strip(name), Prefix(name);
    var k := Kept(s, 0, |prefix|, FAT_LENGTH);
    var x := Out(s, k) + Closing(s, k);
    if LooksLikeType(prefix + x) {
      TypeBehindPrefix(prefix, x);
      TypeIsPlain(s, k, x);
      PositionShift(s, k, |prefix|);
      PositionBound(s, k - 4, 0);
    }
  }

  /** And it can fill it. */
  function Longest(): seq<byte> {
    [1, 65, 1, 65, 1, 65, 1, 65, 1, 65, 1, 65, 1, 65, 1, 65]
  }

  lemma BufferFull()
    ensures |Longest()| == 16 && |Encode(Longest(), FAT_LENGTH)| + 5 == BUFFER_LENGTH
  {
    hide IsReserved, Kept, Rest, LooksLikeType, Out, Fits, Step;
    var s := Longest();
    assert s[0] == 1 && Strip(s) == s;
    if IsReserved(s) {
      ReservedLetters(s);
    }
    LongestPosition(s, 7);
    assert Fits(s, 15, 0, FAT_LENGTH) by { LongestFits(s); }
    KeptAll(s, 0, 0, FAT_LENGTH);
    LongestPosition(s, 8);
    LoopOutput(s, FAT_LENGTH);
    EncodedFull(s);
  }

  lemma {:induction false} LongestPosition(s: seq<byte>, pairs: nat)
    requires s == Longest() && pairs <= 8
    ensures Position(s, 2 * pairs, 0) == 5 * pairs && !EscapeAt(s, 2 * pairs)
  {
    hide Special, Step, Longest;
    LongestSpecials(s);
    if pairs > 0 {
      LongestPosition(s, pairs - 1);
      var n := 2 * pairs - 2;
      StepLength(s, n);
      StepLength(s, n + 1);
      assert Position(s, n + 1, 0) == Position(s, n, 0) + |Step(s, n)|;
      assert Position(s, n + 2, 0) == Position(s, n + 1, 0) + |Step(s, n + 1)|;
    }
  }

  lemma LongestSpecials(s: seq<byte>)
    requires s == Longest()
    ensures |s| == 16 && forall n, first :: 0 <= n < 16 ==> (Special(s[n], first) <==> n % 2 == 0)
  {}

  lemma LongestFits(s: seq<byte>)
    requires s == Longest() && Position(s, 14, 0) == 35 && !EscapeAt(s, 14)
    ensures Fits(s, 15, 0, FAT_LENGTH)
  {
    hide Special;
    LongestSpecials(s);
    assert Position(s, 15, 0) == Position(s, 14, 0) + |Step(s, 14)|;
  }

  /** An output of 40 bytes is too long to look like a type. */
  lemma EncodedFull(s: seq<byte>)
    requires |s| <= 16 && |Prefix(s) + Rest(Strip(s), 0, |Prefix(s)|, FAT_LENGTH)| == 40
    ensures |Encode(s, FAT_LENGTH)| == 40
  {
    hide Strip, IsReserved, Rest, LooksLikeType;
    BufferFits(s);
  }

  // ---- Reserved names stay apart ------------------------------------------------------------------------------

  predicate LetterOrDigit(c: byte) {
    48 <= c <= 57 || 65 <= c <= 90
  }

  lemma ReservedPlain(k: nat)
    requires k < |RESERVED|
    ensures 3 <= |RESERVED[k]| <= 4 && forall j :: 0 <= j < |RESERVED[k]| ==> LetterOrDigit(RESERVED[k][j])
  {}

  lemma LetterStep(s: seq<byte>, n: nat)
    requires n < |s| && n <= 4 && LetterOrDigit(s[n]) && !EscapeAt(s, n) && Position(s, n, 0) == n
    ensures Step(s, n) == [s[n]] && !EscapeAt(s, n + 1) && Position(s, n + 1, 0) == n + 1
    ensures Rest(s, n, 0, FAT_LENGTH) == [s[n]] + Rest(s, n + 1, 0, FAT_LENGTH)
  {
    assert Fits(s, n, 0, FAT_LENGTH);
  }

  /** The first letters and digits are written as they are. */
  lemma {:induction false} PlainStart(s: seq<byte>, j: nat)
    requires j <= |s| && j <= 4 && forall n :: 0 <= n < j ==> LetterOrDigit(s[n])
    ensures Rest(s, 0, 0, FAT_LENGTH) == s[..j] + Rest(s, j, 0, FAT_LENGTH) && !EscapeAt(s, j) && Position(s, j, 0) == j
  {
    hide Step, Special, Rest;
    if j > 0 {
      PlainStart(s, j - 1);
      LetterStep(s, j - 1);
      assert s[..j] == s[..j - 1] + [s[j - 1]];
    }
  }

  /** Output that starts with letters and digits comes from a name that does. */
  lemma {:induction false} PlainSource(s: seq<byte>, tail: seq<byte>, r: seq<byte>, j: nat)
    requires j <= |r| <= 4 && forall n :: 0 <= n < |r| ==> LetterOrDigit(r[n])
    requires r <= Rest(s, 0, 0, FAT_LENGTH) + tail && (tail == [] || tail == [OPEN, CLOSE])
    ensures r[..j] <= s
  {
    hide Rest, Position, EscapeAt;
    if j > 0 {
      PlainSource(s, tail, r, j - 1);
      assert forall n :: 0 <= n < j - 1 ==> s[n] == r[n];
      PlainStart(s, j - 1);
      var x := Rest(s, 0, 0, FAT_LENGTH) + tail;
      assert x == s[..j - 1] + (Rest(s, j - 1, 0, FAT_LENGTH) + tail);
      assert x[j - 1] == r[j - 1];
      NextPlain(s, tail, j - 1, r[j - 1]);
    }
  }

  /** The next byte of the output is a letter, a digit or a dot only if the name has it there. */
  lemma NextPlain(s: seq<byte>, tail: seq<byte>, j: nat, c: byte)
    requires j <= |s| && j <= 4 && !EscapeAt(s, j) && Position(s, j, 0) == j && (tail == [] || tail == [OPEN, CLOSE])
    requires var x := Rest(s, j, 0, FAT_LENGTH) + tail; x != [] && x[0] == c && c != OPEN && c != CLOSE
    ensures j < |s| && s[j] == c
  {
    if j < |s| {
      assert Fits(s, j, 0, FAT_LENGTH);
    }
  }

  /** Without the extra braces, the output is a reserved name if and only if the name, without trailing
      shifted spaces, is one. */
  lemma SameReserved(s: seq<byte>, tail: seq<byte>, k: nat)
    requires k < |RESERVED| && (tail == [] || tail == [OPEN, CLOSE]) && (tail != [] ==> LooksLikeType(Rest(s, 0, 0, FAT_LENGTH)))
    ensures Matches(Rest(s, 0, 0, FAT_LENGTH) + tail, RESERVED[k]) <==> Matches(s, RESERVED[k])
  {
    hide Rest, Position, LooksLikeType;
    var r, x := RESERVED[k], Rest(s, 0, 0, FAT_LENGTH) + tail;
    ReservedPlain(k);
    if Matches(x, r) {
      PlainSource(s, tail, r, |r|);
      assert r[..|r|] == r;
    }
    if r <= s {
      assert s[..|r|] == r;
      assert forall n :: 0 <= n < |r| ==> s[n] == r[n];
      PlainStart(s, |r|);
      assert x == r + (Rest(s, |r|, 0, FAT_LENGTH) + tail);
      AfterReserved(s, tail, |r|);
    }
  }

  /** Behind a reserved name: the end, a dot, or something else, in the output as in the name. */
  lemma AfterReserved(s: seq<byte>, tail: seq<byte>, j: nat)
    requires 3 <= j <= |s| && j <= 4 && !EscapeAt(s, j) && Position(s, j, 0) == j && forall n :: 0 <= n < j ==> LetterOrDigit(s[n])
    requires (tail == [] || tail == [OPEN, CLOSE]) && (tail != [] ==> LooksLikeType(Rest(s, 0, 0, FAT_LENGTH)))
    ensures var x := Rest(s, j, 0, FAT_LENGTH) + tail;
            (x == [] <==> j == |s|) && (x != [] && j < |s| ==> (x[0] == DOT <==> s[j] == DOT))
  {
    hide LooksLikeType;
    if j == |s| {
      PlainStart(s, j);
      assert Rest(s, 0, 0, FAT_LENGTH) == s;
      NoTypeOfLetters(s);
    } else {
      assert Fits(s, j, 0, FAT_LENGTH);
    }
  }

  lemma NoTypeOfLetters(s: seq<byte>)
    requires |s| <= 4 && forall n :: 0 <= n < |s| ==> LetterOrDigit(s[n])
    ensures !LooksLikeType(s)
  {
    if |s| == 4 {
      var last := seq(4, i requires 0 <= i < 4 => Upper(s[|s| - 4 + i]));
      assert last[0] == Upper(s[0]) != 46;
      assert forall e :: e in EXTENSIONS ==> e[0] == 46;
    }
  }

  /** The encoded name is a reserved name exactly when the name is one once its trailing shifted spaces are
      gone, but was not one with them: the check looks at the name before they are dropped. */
  lemma ReservedEscapedIff(name: seq<byte>)
    ensures IsReserved(Encode(name, FAT_LENGTH)) <==> IsReserved(Strip(name)) && !IsReserved(name)
  {
    hide Rest, Strip, LooksLikeType, Matches;
    var s := Strip(name);
    if IsReserved(name) {
      var e := Encode(name, FAT_LENGTH);
      assert e[0] == OPEN;
      if IsReserved(e) {
        ReservedLetters(e);
      }
    } else {
      var x := Rest(s, 0, 0, FAT_LENGTH);
      var tail := if LooksLikeType(x) then [OPEN, CLOSE] else [];
      assert [] + x == x;
      assert Encode(name, FAT_LENGTH) == x + tail;
      forall k: nat | k < |RESERVED| ensures Matches(x + tail, RESERVED[k]) <==> Matches(s, RESERVED[k]) {
        SameReserved(s, tail, k);
      }
    }
  }

  /** "CON" and a shifted space. */
  lemma ReservedSlipsThrough()
    ensures var name: seq<byte> := [67, 79, 78, 160]; IsReserved(Encode(name, FAT_LENGTH))
  {
    hide Encode;
    var name: seq<byte> := [67, 79, 78, 160];
    ReservedEscapedIff(name);
    assert name[..3] == [67, 79, 78] && Strip([67, 79, 78]) == [67, 79, 78] && Strip(name) == [67, 79, 78];
    assert Matches([67, 79, 78], RESERVED[0]);
    forall k: nat | k < |RESERVED| ensures !Matches(name, RESERVED[k]) {
      ReservedPlain(k);
    }
  }

  // ---- The loops ---------------------------------------------------------------------------------------------------

  /** A C string has no zero inside. */
  predicate Terminated(s: seq<byte>) {
    forall j :: 0 <= j < |s| ==> s[j] != 0
  }

  /** Compare with one reserved name, up to the end of either. */
  method MatchesName(pet: seq<byte>, reserved: seq<byte>) returns (same: bool)
    requires Terminated(pet) && Terminated(reserved) && DOT !in reserved
    ensures same == Matches(pet, reserved)
  {
    var j := 0;
    while true
      invariant j <= |pet| && j <= |reserved| && pet[..j] == reserved[..j]
      decreases |pet| - j
    {
      var a := if j < |pet| then pet[j] else 0;
      var b := if j < |reserved| then reserved[j] else 0;
      if b == 0 && a == DOT {
        a := 0;
      }
      if a != b {
        Mismatch(pet, reserved, j);
        return false;
      }
      if a == 0 || b == 0 {
        assert reserved == reserved[..j];
        return true;
      }
      assert pet[..j + 1] == pet[..j] + [a] && reserved[..j + 1] == reserved[..j] + [b];
      j := j + 1;
    }
  }

  lemma Mismatch(pet: seq<byte>, reserved: seq<byte>, j: nat)
    requires j <= |pet| && j <= |reserved|
    requires if j < |reserved| then j == |pet| || pet[j] != reserved[j] else j < |pet| && pet[j] != DOT
    ensures !Matches(pet, reserved)
  {
    if j < |reserved| && j < |pet| {
      var r, q := reserved[j], pet[j];
      assert r != q;
    }
  }

  /** The loop over the reserved names. */
  method ReservedName(pet: seq<byte>) returns (found: bool)
    requires Terminated(pet)
    ensures found == IsReserved(pet)
  {
    for k := 0 to |RESERVED|
      invariant forall j :: 0 <= j < k ==> !Matches(pet, RESERVED[j])
    {
      ReservedPlain(k);
      found := MatchesName(pet, RESERVED[k]);
      if found {
        return;
      }
    }
    found := false;
  }

  /** Are all bytes from here on shifted spaces? */
  method OnlyPadding(pet: seq<byte>, n: nat) returns (yes: bool)
    requires n <= |pet| && n <= |Strip(pet)|
    ensures yes == (n == |Strip(pet)|)
  {
    var q := n;
    while q < |pet| && pet[q] == PADDING
      invariant n <= q <= |pet| && forall j :: n <= j < q ==> pet[j] == PADDING
    {
      q := q + 1;
    }
    yes := q == |pet|;
    var s := Strip(pet);
    if n < |s| {
      assert s[|s| - 1] == pet[|s| - 1] != PADDING;
    }
  }

  /** One byte of the name: braces if they are needed, then digits or the byte itself. */
  method WriteByte(ghost s: seq<byte>, ghost n: nat, p: byte, fat: array<byte>, i: nat, special: bool, escape: bool) returns (next: nat)
    requires n < |s| && p == s[n] && i + 3 < fat.Length && special == Special(s[n], n == 0) && escape == EscapeAt(s, n)
    modifies fat
    ensures next == i + |Step(s, n)| <= i + 3 && fat[..next] == old(fat[..i]) + Step(s, n)
  {
    next := i;
    if special != escape {
      fat[next] := if special then OPEN else CLOSE;
      next := next + 1;
    }
    if special {
      fat[next], fat[next + 1] := Hex(p / 16), Hex(p % 16);
      next := next + 2;
    } else {
      fat[next] := p;
      next := next + 1;
    }
    assert fat[..i] == old(fat[..i]);
  }

  /** The state of the loop of petscii_to_fat. */
  ghost predicate Encoding(s: seq<byte>, prefix: seq<byte>, maxlen: nat, n: nat, out: seq<byte>, escape: bool) {
    && n <= |s| && |out| == Position(s, n, |prefix|) && escape == EscapeAt(s, n) && |out| + |Closing(s, n)| <= maxlen
    && prefix + Rest(s, 0, |prefix|, maxlen) == out + Rest(s, n, |prefix|, maxlen)
  }

  lemma EncodingStarts(s: seq<byte>, prefix: seq<byte>, maxlen: nat)
    requires |prefix| <= maxlen
    ensures Encoding(s, prefix, maxlen, 0, prefix, false)
  {}

  lemma EncodingStep(s: seq<byte>, prefix: seq<byte>, maxlen: nat, n: nat, out: seq<byte>, escape: bool)
    requires Encoding(s, prefix, maxlen, n, out, escape) && n < |s| && Fitting(s[n], n == 0, |out|, maxlen)
    ensures escape == EscapeAt(s, n) && |Step(s, n)| <= 3 && |out + Step(s, n)| <= maxlen
    ensures Encoding(s, prefix, maxlen, n + 1, out + Step(s, n), Special(s[n], n == 0))
  {
    hide Special;
    var next := Rest(s, n + 1, |prefix|, maxlen);
    assert Fits(s, n, |prefix|, maxlen);
    assert out + (Step(s, n) + next) == (out + Step(s, n)) + next;
  }

  lemma EncodingEnds(s: seq<byte>, prefix: seq<byte>, maxlen: nat, n: nat, out: seq<byte>, escape: bool)
    requires Encoding(s, prefix, maxlen, n, out, escape) && (n == |s| || !Fitting(s[n], n == 0, |out|, maxlen))
    ensures prefix + Rest(s, 0, |prefix|, maxlen) == out + if escape then [CLOSE] else []
    ensures |out| + (if escape then 1 else 0) <= maxlen
  {
    hide Special;
  }

  /** The loop of petscii_to_fat and the closing brace. */
  method EncodeLoop(pet: seq<byte>, ghost prefix: seq<byte>, fat: array<byte>, start: nat, maxlen: nat) returns (i: nat)
    requires start == |prefix| <= maxlen && fat.Length >= maxlen + 3 && fat[..start] == prefix
    modifies fat
    ensures i <= maxlen && fat[..i] == prefix + Rest(Strip(pet), 0, |prefix|, maxlen)
  {
    hide Strip, Special, Encoding, Rest, Step, EscapeAt;
    var n, escape := 0, false;
    i := start;
    ghost var s := Strip(pet);
    EncodingStarts(s, prefix, maxlen);
    while n < |pet|
      invariant n <= |s| && i <= maxlen && Encoding(s, prefix, maxlen, n, fat[..i], escape)
    {
      var p := pet[n];
      if p == PADDING {
        var trailing := OnlyPadding(pet, n);
        if trailing {
          break;
        }
      }
      StripHas(pet, n);
      var special := Special(p, n == 0);
      if i + (if special then 4 else 2) > maxlen {
        break;
      }
      EncodingStep(s, prefix, maxlen, n, fat[..i], escape);
      i := WriteByte(s, n, p, fat, i, special, escape);
      escape := special;
      n := n + 1;
    }
    EncodingEnds(s, prefix, maxlen, n, fat[..i], escape);
    if escape {
      ghost var out := fat[..i];
      fat[i] := CLOSE;
      i := i + 1;
      assert fat[..i] == out + [CLOSE];
    }
  }

  /** petscii_to_fat: the string up to the terminating zero is the encoded name. */
  method PetsciiToFat(pet: seq<byte>, fat: array<byte>, maxlen: nat) returns (length: nat)
    requires Terminated(pet) && maxlen >= 2 && fat.Length >= maxlen + 3
    modifies fat
    ensures length < fat.Length && fat[..length] == Encode(pet, maxlen) && fat[length] == 0
  {
    hide Strip, IsReserved, Rest, LooksLikeType;
    var start := 0;
    var reserved := ReservedName(pet);
    if reserved {
      fat[0], fat[1] := OPEN, CLOSE;
      start := 2;
    }
    assert fat[..start] == Prefix(pet);
    length := EncodeLoop(pet, Prefix(pet), fat, start, maxlen);
    ghost var all := fat[..length];
    fat[length] := 0;
    assert fat[..length] == all;
    if LooksLikeType(fat[..length]) {
      fat[length], fat[length + 1], fat[length + 2] := OPEN, CLOSE, 0;
      length := length + 2;
      assert fat[..length] == all + [OPEN, CLOSE];
    }
  }

  /** A byte that is not trailing padding is part of the stripped name. */
  lemma StripHas(pet: seq<byte>, n: nat)
    requires n < |pet| && n <= |Strip(pet)| && (pet[n] != PADDING || n != |Strip(pet)|)
    ensures n < |Strip(pet)| && Strip(pet)[n] == pet[n]
  {}

  /** What one round of fat_to_petscii does: nothing more, a byte for the name, or only a step. */
  datatype Move = Stop | Emit(c: byte, k: nat, escape: bool) | Skip(k: nat, escape: bool)

  function NextMove(src: seq<byte>, k: nat, escape: bool): Move
    requires k < |src|
  {
    var at := if src[k] == OPEN then k + 1 else k;
    if escape || src[k] == OPEN then
      if |src| < at + 2 then Stop
      else if IsHex(src[at]) && IsHex(src[at + 1]) then Emit(16 * HexValue(src[at]) + HexValue(src[at + 1]), at + 2, true)
      else Skip(at, false)
    else if src[k] == CLOSE then Skip(k + 1, false)
    else Emit(Upper(src[k]), k + 1, false)
  }

  /** The reading half of a round. */
  method ReadMove(fat: array<byte>, k: nat, escape: bool, ghost src: seq<byte>) returns (m: Move)
    requires k < |src| && |src| + 1 < fat.Length && Terminated(src)
    requires forall j :: k <= j <= |src| ==> fat[j] == if j < |src| then src[j] else 0
    ensures m == NextMove(src, k, escape)
  {
    var f, inside, at := fat[k], escape, k;
    if f == OPEN {
      inside := true;
      at := k + 1;
    }
    if inside {
      var h, l := fat[at], fat[at + 1];
      if h == 0 || l == 0 {
        m := Stop;
      } else if !IsHex(h) || !IsHex(l) {
        m := Skip(at, false);
      } else {
        m := Emit(16 * HexValue(h) + HexValue(l), at + 2, true);
      }
    } else if f == CLOSE {
      m := Skip(k + 1, false);
    } else {
      m := Emit(Upper(f), k + 1, false);
    }
  }

  /** The state of the loop: what is decoded already and what is still to come. */
  ghost predicate Decoding(src: seq<byte>, len: nat, out: seq<byte>, k: nat, escape: bool) {
    && |out| <= k <= |src| && |out| <= len && out + Decoded(src[k..], escape, len - |out|) == Decode(src, len)
  }

  /** What a round does to the string still to be decoded. */
  lemma MoveDecodes(src: seq<byte>, k: nat, escape: bool, room: nat)
    requires k < |src| && room > 0
    ensures var m := NextMove(src, k, escape); var rest := Decoded(src[k..], escape, room);
            && (m.Stop? ==> rest == [])
            && (m.Emit? ==> k < m.k <= |src| && rest == [m.c] + Decoded(src[m.k..], m.escape, room - 1))
            && (m.Skip? ==> k <= m.k <= |src| && (k == m.k ==> escape && !m.escape) && rest == Decoded(src[m.k..], m.escape, room))
  {
    hide Decoded, Pair, IsHex, HexValue, Upper;
    OnDecoded(src, k, escape, room);
    if src[k] == OPEN {
      OnPair(src, k + 1, room);
    } else if escape {
      OnPair(src, k, room);
    }
  }

  /** Every round keeps it and comes nearer to the end. */
  lemma MoveKeeps(src: seq<byte>, len: nat, out: seq<byte>, k: nat, escape: bool)
    requires Decoding(src, len, out, k, escape) && k < |src| && |out| < len
    ensures var m := NextMove(src, k, escape);
            && (m.Stop? ==> out == Decode(src, len))
            && (m.Emit? ==> k < m.k && Decoding(src, len, out + [m.c], m.k, m.escape))
            && (m.Skip? ==> k <= m.k && (k == m.k ==> escape && !m.escape) && Decoding(src, len, out, m.k, m.escape))
  {
    hide Decoded, Decode, NextMove;
    var room := len - |out|;
    MoveDecodes(src, k, escape, room);
    var m := NextMove(src, k, escape);
    if m.Emit? {
      var rest := Decoded(src[m.k..], m.escape, room - 1);
      assert (out + [m.c]) + rest == out + ([m.c] + rest);
    }
  }

  /** fat_to_petscii. Source and target may be the same array: no byte is written before it was read, so
      the result is that of the original string either way. */
  method FatToPetscii(fat: array<byte>, n: nat, pet: array<byte>, len: nat, term: bool) returns (count: nat)
    requires n + 1 < fat.Length && fat[n] == 0 && Terminated(fat[..n])
    requires len < pet.Length
    modifies pet
    ensures count <= len && pet[..count] == Decode(old(fat[..n]), len) && (term ==> pet[count] == 0)
  {
    hide Decode, Decoding, NextMove;
    ghost var src := fat[..n];
    var i, k, escape := 0, 0, false;
    DecodingStarts(src, len);
    assert pet[..0] == [];
    while k < n && i < len
      invariant i <= k <= n && i <= len && Decoding(src, len, pet[..i], k, escape)
      invariant forall j :: k <= j <= n ==> fat[j] == if j < n then src[j] else 0
      decreases n - k, escape
    {
      ghost var out := pet[..i];
      MoveKeeps(src, len, out, k, escape);
      var m := ReadMove(fat, k, escape, src);
      match m {
        case Stop => break;
        case Emit(c, k2, e) =>
          MoveInside(src, len, out + [c], k2, e);
          pet[i] := c;
          assert pet[..i + 1] == out + [c];
          i, k, escape := i + 1, k2, e;
        case Skip(k2, e) =>
          MoveInside(src, len, out, k2, e);
          k, escape := k2, e;
      }
    }
    if k == n || i == len {
      DecodingEnds(src, len, pet[..i], k, escape);
    }
    ghost var name := pet[..i];
    assert name == Decode(src, len);
    if term {
      pet[i] := 0;
    }
    assert pet[..i] == name;
    count := i;
  }

  lemma DecodingStarts(src: seq<byte>, len: nat)
    ensures Decoding(src, len, [], 0, false)
  {
    hide Decoded;
    assert src[0..] == src;
  }

  lemma MoveInside(src: seq<byte>, len: nat, out: seq<byte>, k: nat, escape: bool)
    requires Decoding(src, len, out, k, escape)
    ensures |out| <= k <= |src| && |out| <= len
  {
    hide Decoded;
  }

  lemma DecodingEnds(src: seq<byte>, len: nat, out: seq<byte>, k: nat, escape: bool)
    requires Decoding(src, len, out, k, escape) && (k == |src| || |out| == len)
    ensures out == Decode(src, len)
  {
    hide Decoded, Decode;
    DecodedEnds(src, k, escape, len - |out|);
  }

  lemma DecodedEnds(src: seq<byte>, k: nat, escape: bool, room: nat)
    requires k <= |src| && (k == |src| || room == 0)
    ensures Decoded(src[k..], escape, room) == []
  {}

  /** The cases of the loop. */
  lemma OnDecoded(src: seq<byte>, k: nat, escape: bool, room: nat)
    requires k < |src| && room > 0
    ensures Decoded(src[k..], escape, room)
         == if src[k] == OPEN then Pair(src[k + 1..], room)
            else if escape then Pair(src[k..], room)
            else if src[k] == CLOSE then Decoded(src[k + 1..], false, room)
            else [Upper(src[k])] + Decoded(src[k + 1..], false, room - 1)
  {
    assert src[k..][1..] == src[k + 1..];
  }

  lemma OnPair(src: seq<byte>, k: nat, room: nat)
    requires k <= |src| && room > 0
    ensures Pair(src[k..], room)
         == if |src| < k + 2 then []
            else if IsHex(src[k]) && IsHex(src[k + 1]) then [16 * HexValue(src[k]) + HexValue(src[k + 1])] + Decoded(src[k + 2..], true, room - 1)
            else Decoded(src[k..], false, room)
  {
    if |src| >= k + 2 {
      assert src[k..][2..] == src[k + 2..];
    }
  }
}

/** Track/sector geometry of the Dxx image formats (src/d64ops.c). */
module Geometry {
  import opened Bits

  datatype Kind = D41 | D71 | D81 | D80 | D82 | DNP

  /** sector_lba: the 8-bit track number is decremented first, so track 0 becomes 255. */
  function SectorLba(kind: Kind, track: byte, sector: byte): int {
    var t := (track + 255) % 256;
    match kind
    case D41 => ZoneLba1541(t) + sector
    case D71 => if t >= 35 then 683 + ZoneLba1541(t - 35) + sector else ZoneLba1541(t) + sector
    case D81 => t * 40 + sector
    case DNP => t * 256 + sector
    case D80 => ZoneLba8050(t) + sector
    case D82 => ZoneLba8050(t) + sector
  }

  function ZoneLba1541(t: nat): nat {
    if t < 17 then t * 21
    else if t < 24 then 17 * 21 + (t - 17) * 19
    else if t < 30 then 17 * 21 + 7 * 19 + (t - 24) * 18
    else 17 * 21 + 7 * 19 + 6 * 18 + (t - 30) * 17
  }

  /** The code moves the second side down only from (0-based) track 78 on; track 77 is the first of
      that side and still runs through the formula of the last zone. */
  function ZoneLba8050(track0: nat): nat {
    var offset := if track0 >= 78 then 2083 else 0;
    var t := if track0 >= 78 then track0 - 77 else track0;
    offset +
    if t < 39 then t * 29
    else if t < 53 then 39 * 29 + (t - 39) * 27
    else if t < 64 then 39 * 29 + 14 * 27 + (t - 53) * 25
    else 39 * 29 + 14 * 27 + 11 * 25 + (t - 64) * 23
  }

  /** d64_sectors_per_track */
  function SectorsPerTrack(kind: Kind, track: byte): (r: nat)
    ensures 17 <= r <= 256
    ensures kind != DNP ==> r <= 40
  {
    match kind
    case D41 => Zone1541(track)
    case D71 => Zone1541(if track > 35 then track - 35 else track)
    case D81 => 40
    case DNP => 256
    case D80 => Zone8050(if track > 77 then track - 77 else track)
    case D82 => Zone8050(if track > 77 then track - 77 else track)
  }

  function Zone1541(track: int): nat {
    if track < 18 then 21 else if track < 25 then 19 else if track < 31 then 18 else 17
  }

  function Zone8050(track: int): nat {
    if track < 40 then 29 else if track < 54 then 27 else if track < 65 then 25 else 23
  }

  /** Highest track an image of this kind can have (a D41 may carry seven extra tracks). */
  function MaxTrack(kind: Kind): byte {
    match kind
    case D41 => 42
    case D71 => 70
    case D81 => 80
    case D80 => 77
    case D82 => 154
    case DNP => 255
  }

  /** Reference definition: sectors on the tracks before the given one, counted track by track. */
  function SectorsBefore(kind: Kind, track: nat): nat
    requires 1 <= track <= 256
  {
    if track == 1 then 0 else SectorsBefore(kind, track - 1) + SectorsPerTrack(kind, track - 1)
  }

  predicate InRange(kind: Kind, lastTrack: nat, track: int, sector: int) {
    1 <= track <= lastTrack && track < 256 && 0 <= sector < SectorsPerTrack(kind, track)
  }

  // ---- sector_lba is the prefix sum of the sectors per track ---------------

  lemma {:induction false} LbaIsPrefixSum(kind: Kind, track: byte, sector: byte)
    requires 1 <= track <= MaxTrack(kind) + (if kind == D41 then 1 else 0)
    ensures SectorLba(kind, track, sector) == SectorsBefore(kind, track) + sector
  {
    if track > 1 {
      LbaIsPrefixSum(kind, track - 1, sector);
      LbaStep(kind, track - 1, sector);
    }
  }

  lemma LbaStep(kind: Kind, track: byte, sector: byte)
    requires 1 <= track < MaxTrack(kind) + (if kind == D41 then 1 else 0)
    ensures SectorLba(kind, track + 1, sector) == SectorLba(kind, track, sector) + SectorsPerTrack(kind, track)
  {
    assert (track + 255) % 256 == track - 1 && (track + 1 + 255) % 256 == track;
    match kind
    case D41 =>
    case D71 =>
    case D81 =>
    case D80 =>
    case D82 =>
    case DNP =>
  }

  lemma {:induction false} SectorsBeforeMonotone(kind: Kind, a: nat, b: nat)
    requires 1 <= a < b <= 256
    ensures SectorsBefore(kind, a) + SectorsPerTrack(kind, a) <= SectorsBefore(kind, b)
  {
    if a < b - 1 {
      SectorsBeforeMonotone(kind, a, b - 1);
    }
  }

  /** Different in-range pairs have different sector numbers ... */
  lemma LbaInjective(kind: Kind, lastTrack: byte, t1: byte, s1: byte, t2: byte, s2: byte)
    requires lastTrack <= MaxTrack(kind)
    requires InRange(kind, lastTrack, t1, s1) && InRange(kind, lastTrack, t2, s2)
    requires SectorLba(kind, t1, s1) == SectorLba(kind, t2, s2)
    ensures t1 == t2 && s1 == s2
  {
    LbaIsPrefixSum(kind, t1, s1);
    LbaIsPrefixSum(kind, t2, s2);
    if t1 < t2 {
      SectorsBeforeMonotone(kind, t1, t2);
    } else if t2 < t1 {
      SectorsBeforeMonotone(kind, t2, t1);
    }
  }

  /** ... every one of them lies in the data area ... */
  lemma LbaInDataArea(kind: Kind, lastTrack: byte, t: byte, s: byte)
    requires 1 <= lastTrack <= MaxTrack(kind)
    requires InRange(kind, lastTrack, t, s)
    ensures 0 <= SectorLba(kind, t, s) < SectorsBefore(kind, lastTrack + 1)
  {
    LbaIsPrefixSum(kind, t, s);
    if t <= lastTrack {
      SectorsBeforeMonotone(kind, t, lastTrack + 1);
    }
  }

  /** ... and every sector number of the data area belongs to an in-range pair. */
  lemma {:induction false} LbaSurjective(kind: Kind, lastTrack: byte, n: nat) returns (t: byte, s: byte)
    requires 1 <= lastTrack <= MaxTrack(kind)
    requires n < SectorsBefore(kind, lastTrack + 1)
    ensures InRange(kind, lastTrack, t, s) && SectorLba(kind, t, s) == n
  {
    if n < SectorsBefore(kind, lastTrack) {
      t, s := LbaSurjective(kind, lastTrack - 1, n);
    } else {
      t, s := lastTrack, n - SectorsBefore(kind, lastTrack);
      LbaIsPrefixSum(kind, t, s);
    }
  }

  // ---- d64_mount ------------------------------------------------------------

  datatype Mounted = Mounted(kind: Kind, hasErrorInfo: bool, lastTrack: byte, lastBamTrack: byte, errorOffset: nat)
  datatype MountResult = Recognised(image: Mounted) | ImageInvalid

  /** d64_mount: the format follows from the size alone, except that an image of 196608 bytes is a
      DNP with three tracks when its name's extension starts with ".?N" (namedDnp). The variable
      extra is an unsigned 16-bit number in the source. */
  function Mount(size: nat, namedDnp: bool): MountResult {
    if size == 349696 then Recognised(Mounted(D71, false, 70, 70, 349696))
    else if size == 349696 + 349696 / 256 then Recognised(Mounted(D71, true, 70, 70, 349696))
    else if size == 819200 then Recognised(Mounted(D81, false, 80, 80, 819200))
    else if size == 819200 + 819200 / 256 then Recognised(Mounted(D81, true, 80, 80, 819200))
    else if size == 533248 then Recognised(Mounted(D80, false, 77, 77, 533248))
    else if size == 535331 then Recognised(Mounted(D80, true, 77, 77, 533248))
    else if size == 1066496 then Recognised(Mounted(D82, false, 154, 154, 1066496))
    else if size == 1070662 then Recognised(Mounted(D82, true, 154, 154, 1066496))
    else if 174848 <= size <= 174848 + 7 * 17 * 256 + 802 && !(size == 196608 && namedDnp)
            && D41Extra(size).Extra? then
      var e := D41Extra(size);
      Recognised(Mounted(D41, e.errorInfo, 35 + e.sectors / 17, 35, 174848 + 256 * e.sectors))
    else if size == 0 || size % 65536 != 0 || size / 65536 > 255 then ImageInvalid
    else Recognised(Mounted(DNP, false, size / 65536, size / 65536, size))
  }

  datatype ExtraSectors = Extra(errorInfo: bool, sectors: nat) | NotD41

  /** A size that is a multiple of 257 leaves a multiple of 257 behind 683 sectors with error bytes. */
  lemma ErrorInfoSize(size: int)
    ensures size % 257 == 0 ==> size - 175531 == 257 * ((size - 175531) / 257)
    ensures size % 256 == 0 ==> size - 174848 == 256 * ((size - 174848) / 256)
  {
    assert 175531 == 683 * 257 && 174848 == 683 * 256;
  }

  function D41Extra(size: nat): (r: ExtraSectors)
    requires 174848 <= size <= 174848 + 7 * 17 * 256 + 802
    ensures r.Extra? ==> r.sectors % 17 == 0 && r.sectors <= 119
    ensures r.Extra? ==> size == 174848 + 256 * r.sectors + (if r.errorInfo then 683 + r.sectors else 0)
  {
    var extra := size - 174848;
    ErrorInfoSize(size);
    if size % 256 == 0 && extra / 256 % 17 == 0 then Extra(false, extra / 256)
    else if size % 257 == 0 && (extra - 683) / 257 % 17 == 0 then Extra(true, (extra - 683) / 257)
    else NotD41
  }

  /** The accepted sizes leave room for exactly the data area and, when error info is present, for
      exactly one error byte per sector behind it. */
  lemma MountLayout(size: nat, namedDnp: bool)
    requires Mount(size, namedDnp).Recognised?
    ensures var m := Mount(size, namedDnp).image;
            && 1 <= m.lastTrack <= MaxTrack(m.kind) && m.lastBamTrack <= m.lastTrack
            && m.errorOffset == 256 * SectorsBefore(m.kind, m.lastTrack + 1)
            && size == m.errorOffset + if m.hasErrorInfo then SectorsBefore(m.kind, m.lastTrack + 1) else 0
  {
    var m := Mount(size, namedDnp).image;
    TotalSectors(m.kind, m.lastTrack);
    if m.kind == D41 {
      var e := D41Extra(size);
      assert e.sectors == 17 * (e.sectors / 17);
    }
  }

  /** Closed form of the data area's size in sectors. */
  lemma TotalSectors(kind: Kind, last: byte)
    requires match kind case D41 => 35 <= last <= 42 case DNP => last >= 1 case _ => last == MaxTrack(kind)
    ensures SectorsBefore(kind, last + 1)
         == match kind case D41 => 683 + 17 * (last - 35) case D71 => 1366 case D81 => 3200
                       case D80 => 2083 case D82 => 4166 case DNP => 256 * last
  {
    hide SectorLba, SectorsPerTrack;
    LbaIsPrefixSum(kind, last, 0);
    assert SectorsBefore(kind, last as nat + 1) == SectorsBefore(kind, last) + SectorsPerTrack(kind, last);
    LastTrackLba(kind, last);
  }

  lemma LastTrackLba(kind: Kind, last: byte)
    requires match kind case D41 => 35 <= last <= 42 case DNP => last >= 1 case _ => last == MaxTrack(kind)
    ensures SectorLba(kind, last, 0) + SectorsPerTrack(kind, last)
         == match kind case D41 => 683 + 17 * (last - 35) case D71 => 1366 case D81 => 3200
                       case D80 => 2083 case D82 => 4166 case DNP => 256 * last
  {
    assert (last + 255) % 256 == last - 1;
  }

  /** The error byte of every sector of a mounted image with error info lies inside the error area,
      and its data inside the data area; distinct sectors have distinct error bytes. */
  lemma SectorPlacement(size: nat, namedDnp: bool, t: byte, s: byte)
    requires Mount(size, namedDnp).Recognised?
    requires var m := Mount(size, namedDnp).image; InRange(m.kind, m.lastTrack, t, s)
    ensures var m := Mount(size, namedDnp).image; var lba := SectorLba(m.kind, t, s);
            && 0 <= 256 * lba && 256 * lba + 256 <= m.errorOffset
            && (m.hasErrorInfo ==> m.errorOffset <= m.errorOffset + lba < size)
  {
    MountLayout(size, namedDnp);
    var m := Mount(size, namedDnp).image;
    LbaInDataArea(m.kind, m.lastTrack, t, s);
  }
}

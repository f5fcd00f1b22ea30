/** Error codes of sectors, and the write-back cache in front of them (src/d64ops.c, errorcache_read,
    errorcache_commit, the error part of checked_read, d64_set_error and d64_extend_image). */
module ErrorInfo {
  import opened Bits
  import opened Geometry

  const NO_PART: byte := 255
  const GOOD: byte := 1
  const NO_SYNC: byte := 3

  type Errors = e: seq<byte> | |e| == 40 witness seq(40, _ => 1)

  /** A mounted image, as far as its error info goes: one byte for every sector, if there is any. */
  datatype Image = Image(kind: Kind, lastTrack: byte, hasInfo: bool, area: seq<byte>)

  predicate Sound(im: Image) {
    && 1 <= im.lastTrack <= MaxTrack(im.kind)
    && (im.hasInfo ==> im.kind != DNP && |im.area| == SectorsBefore(im.kind, im.lastTrack + 1))
  }

  predicate Inside(im: Image, t: byte, s: byte) {
    InRange(im.kind, im.lastTrack, t, s)
  }

  /** The error code of a sector; without error info every sector is good. */
  function ErrorOf(im: Image, t: byte, s: byte): byte
    requires Sound(im) && Inside(im, t, s)
  {
    LbaInDataArea(im.kind, im.lastTrack, t, s);
    if im.hasInfo then im.area[SectorLba(im.kind, t, s)] else GOOD
  }

  /** Where the codes of a track lie. */
  lemma TrackInside(im: Image, t: byte)
    requires Sound(im) && im.hasInfo && 1 <= t <= im.lastTrack
    ensures 0 <= SectorLba(im.kind, t, 0) && SectorLba(im.kind, t, 0) + SectorsPerTrack(im.kind, t) <= |im.area|
    ensures SectorsPerTrack(im.kind, t) <= 40
  {
    LbaInDataArea(im.kind, im.lastTrack, t, 0);
    LbaInDataArea(im.kind, im.lastTrack, t, SectorsPerTrack(im.kind, t) - 1);
  }

  lemma LbaOffset(kind: Kind, t: byte, s: byte)
    ensures SectorLba(kind, t, s) == SectorLba(kind, t, 0) + s
  {}

  /** image_write of the codes of a track */
  function WithTrack(im: Image, t: byte, errors: Errors): (r: Image)
    requires Sound(im) && im.hasInfo && 1 <= t <= im.lastTrack
    ensures Sound(r) && r == im.(area := r.area)
  {
    TrackInside(im, t);
    var base, n := SectorLba(im.kind, t, 0), SectorsPerTrack(im.kind, t);
    im.(area := im.area[..base] + errors[..n] + im.area[base + n..])
  }

  /** Its effect, sector by sector. */
  lemma WithTrackErrors(im: Image, t: byte, errors: Errors, t2: byte, s2: byte)
    requires Sound(im) && im.hasInfo && 1 <= t <= im.lastTrack && Inside(im, t2, s2)
    ensures Inside(WithTrack(im, t, errors), t2, s2) && s2 < 40
    ensures ErrorOf(WithTrack(im, t, errors), t2, s2) == if t2 == t then errors[s2] else ErrorOf(im, t2, s2)
  {
    hide SectorLba, SectorsPerTrack, SectorsBefore;
    TrackInside(im, t);
    TrackInside(im, t2);
    LbaOffset(im.kind, t2, s2);
    var base, n, lba := SectorLba(im.kind, t, 0), SectorsPerTrack(im.kind, t), SectorLba(im.kind, t2, s2);
    LbaInDataArea(im.kind, im.lastTrack, t2, s2);
    if t2 != t && base <= lba < base + n {
      LbaOffset(im.kind, t, lba - base);
      LbaInjective(im.kind, im.lastTrack, t, lba - base, t2, s2);
    }
  }

  // ---- The cache -------------------------------------------------------------------

  /** Contents of the cache. */
  datatype Cached = Cached(part: byte, track: byte, mustflush: bool, errors: Errors)

  ghost predicate CacheOk(images: seq<Image>, c: Cached) {
    c.part != NO_PART ==>
      && c.part as int < |images| && images[c.part].hasInfo && 1 <= c.track <= images[c.part].lastTrack
      && (!c.mustflush ==> Holds(images[c.part], c.track, c.errors))
  }

  /** The cache has the codes of the track. */
  ghost predicate Holds(im: Image, t: byte, errors: Errors) {
    Sound(im) && im.hasInfo && 1 <= t <= im.lastTrack && WithTrack(im, t, errors) == im
  }

  ghost predicate AllSound(images: seq<Image>) {
    |images| <= 255 && forall p :: 0 <= p < |images| ==> Sound(images[p])
  }

  /** What every reader sees: the images with the cached track. */
  ghost function Overlay(images: seq<Image>, c: Cached): (r: seq<Image>)
    requires AllSound(images) && CacheOk(images, c)
    ensures |r| == |images|
  {
    if c.part != NO_PART && c.mustflush then images[c.part := WithTrack(images[c.part], c.track, c.errors)] else images
  }

  lemma OverlaySound(images: seq<Image>, c: Cached)
    requires AllSound(images) && CacheOk(images, c)
    ensures AllSound(Overlay(images, c))
    ensures c.part != NO_PART ==> Holds(Overlay(images, c)[c.part], c.track, c.errors)
  {
    if c.part != NO_PART && c.mustflush {
      Rewritten(images[c.part], c.track, c.errors, c.errors);
    }
  }

  /** Writing the codes of a track twice. */
  lemma Rewritten(im: Image, t: byte, errors: Errors, errors2: Errors)
    requires Sound(im) && im.hasInfo && 1 <= t <= im.lastTrack
    ensures WithTrack(WithTrack(im, t, errors), t, errors2) == WithTrack(im, t, errors2)
  {
    TrackInside(im, t);
    TrackInside(WithTrack(im, t, errors), t);
  }

  /** Reading the codes of a track, as they are. */
  function TrackErrors(im: Image, t: byte): (r: Errors)
    requires Sound(im) && im.hasInfo && 1 <= t <= im.lastTrack
  {
    TrackInside(im, t);
    var base, n := SectorLba(im.kind, t, 0), SectorsPerTrack(im.kind, t);
    im.area[base..base + n] + seq(40 - n, _ => 1)
  }

  lemma TrackErrorsHold(im: Image, t: byte)
    requires Sound(im) && im.hasInfo && 1 <= t <= im.lastTrack
    ensures Holds(im, t, TrackErrors(im, t))
  {
    TrackInside(im, t);
  }

  lemma HeldError(im: Image, t: byte, errors: Errors, s: byte)
    requires Holds(im, t, errors) && Inside(im, t, s)
    ensures s < 40 && errors[s] == ErrorOf(im, t, s)
  {
    WithTrackErrors(im, t, errors, t, s);
  }

  /** What checked_read does with a code. */
  datatype Verdict = Readable | Fails(message: nat) | NotReady

  function Decide(error: byte): Verdict {
    if 2 <= error <= 11 then Fails(error - 2 + 20) else if error == 15 then NotReady else Readable
  }

  /** Every sector good: what add_errorinfo writes. */
  function Added(im: Image): (r: Image)
    requires Sound(im) && im.kind != DNP
    ensures Sound(r)
  {
    im.(hasInfo := true, area := seq(SectorsBefore(im.kind, im.lastTrack + 1), _ => GOOD))
  }

  lemma AddedErrors(im: Image, t: byte, s: byte)
    requires Sound(im) && im.kind != DNP && Inside(im, t, s) && !im.hasInfo
    ensures ErrorOf(Added(im), t, s) == ErrorOf(im, t, s) == GOOD
  {
    LbaInDataArea(im.kind, im.lastTrack, t, s);
  }

  /** The image with one code changed. */
  function WithError(im: Image, t: byte, s: byte, error: byte): (r: Image)
    requires Sound(im) && im.hasInfo && Inside(im, t, s)
    ensures Sound(r)
  {
    LbaInDataArea(im.kind, im.lastTrack, t, s);
    im.(area := im.area[SectorLba(im.kind, t, s) := error])
  }

  /** It changes the code of that sector and of no other. */
  lemma WithErrorAt(im: Image, t: byte, s: byte, error: byte, t2: byte, s2: byte)
    requires Sound(im) && im.hasInfo && Inside(im, t, s) && Inside(im, t2, s2)
    ensures ErrorOf(WithError(im, t, s, error), t2, s2) == if t2 == t && s2 == s then error else ErrorOf(im, t2, s2)
  {
    hide SectorLba, SectorsBefore, SectorsPerTrack;
    LbaInDataArea(im.kind, im.lastTrack, t, s);
    LbaInDataArea(im.kind, im.lastTrack, t2, s2);
    if SectorLba(im.kind, t, s) == SectorLba(im.kind, t2, s2) {
      LbaInjective(im.kind, im.lastTrack, t, s, t2, s2);
    }
  }

  /** Changing a code in the cached track changes it in the image. */
  lemma PokeTrack(im: Image, t: byte, errors: Errors, s: byte, error: byte)
    requires Holds(im, t, errors) && Inside(im, t, s)
    ensures s < 40 && WithTrack(im, t, errors[s := error]) == WithError(im, t, s, error)
  {
    TrackInside(im, t);
    LbaOffset(im.kind, t, s);
    LbaInDataArea(im.kind, im.lastTrack, t, s);
  }

  class Cache {
    var images: seq<Image>
    var part: byte
    var track: byte
    var mustflush: bool
    const errors: array<byte>

    ghost predicate Valid()
      reads this, errors
    {
      errors.Length == 40 && AllSound(images) && CacheOk(images, Value())
    }

    ghost function Value(): Cached
      requires errors.Length == 40
      reads this, errors
    {
      Cached(part, track, mustflush, errors[..])
    }

    /** What every reader sees. */
    ghost function View(): (r: seq<Image>)
      requires Valid()
      reads this, errors
      ensures |r| == |images|
    {
      Overlay(images, Value())
    }

    lemma ViewSound()
      requires Valid()
      ensures AllSound(View()) && |images| == |View()| && (part != NO_PART ==> Holds(View()[part], track, errors[..]))
      ensures forall p :: 0 <= p < |images| ==> View()[p] == images[p].(area := View()[p].area)
    {
      OverlaySound(images, Value());
    }

    constructor (images: seq<Image>)
      requires AllSound(images)
      ensures Valid() && View() == images && fresh(errors)
    {
      this.images := images;
      part, track, mustflush := NO_PART, 0, false;
      errors := new byte[40](i => 1);
    }

    /** errorcache_commit: afterwards the images hold what every reader sees. */
    method Commit()
      requires Valid()
      modifies this`images, this`mustflush
      ensures Valid() && images == View() == old(View()) && (mustflush ==> part == NO_PART)
    {
      if !mustflush || part == NO_PART {
        return;
      }
      OverlaySound(images, Value());
      images := images[part := WithTrack(images[part], track, errors[..])];
      mustflush := false;
    }

    /** errorcache_read: afterwards the cache holds the codes of the track, as every reader sees them. The
        flag mustflush may still be set from a cache that was thrown away; then the codes are written back
        unchanged. */
    method Load(p: byte, t: byte) returns (ok: bool)
      requires Valid() && p as int < |images| && 1 <= t <= images[p].lastTrack
      modifies this`images, this`part, this`track, this`mustflush, errors
      ensures Valid() && View() == old(View()) && |images| == |old(images)| && ok == old(images[p].hasInfo)
      ensures ok ==> part == p && track == t && Holds(View()[p], t, errors[..])
    {
      ViewSound();
      if !images[p].hasInfo {
        return false;
      }
      if part == p && track == t {
        return true;
      }
      Commit();
      Reload(p, t);
      ok := true;
    }

    /** Read the codes of a track from the image. */
    method Reload(p: byte, t: byte)
      requires Valid() && p as int < |images| && images[p].hasInfo && 1 <= t <= images[p].lastTrack && images == View()
      modifies this`part, this`track, errors
      ensures Valid() && View() == old(View()) && part == p && track == t && Holds(View()[p], t, errors[..])
    {
      TrackInside(images[p], t);
      TrackErrorsHold(images[p], t);
      var base, n := SectorLba(images[p].kind, t, 0), SectorsPerTrack(images[p].kind, t);
      ghost var all := TrackErrors(images[p], t);
      forall i | 0 <= i < 40 {
        errors[i] := if i < n then images[p].area[base + i] else 1;
      }
      part, track := p, t;
      assert errors[..] == all;
      assert images[p := WithTrack(images[p], t, all)] == images;
    }

    /** The error part of checked_read: it decides on the latest code of the sector, whether it is still in
        the cache or not. */
    method Check(p: byte, t: byte, s: byte) returns (v: Verdict)
      requires Valid() && p as int < |images| && Inside(images[p], t, s)
      modifies this`images, this`part, this`track, this`mustflush, errors
      ensures Valid() && View() == old(View())
      ensures Sound(View()[p]) && Inside(View()[p], t, s) && v == Decide(ErrorOf(View()[p], t, s))
    {
      hide View, SectorsPerTrack, SectorsBefore, WithTrack;
      ViewSound();
      var ok := Load(p, t);
      ViewSound();
      if !ok {
        return Readable;
      }
      HeldError(View()[p], t, errors[..], s);
      v := Decide(errors[s]);
    }

    /** d64_set_error: the sector has the new code and every other sector of every image the one it had;
        error info is added only when it is needed. */
    method SetError(p: byte, t: byte, s: byte, error: byte) returns (ok: bool)
      requires Valid() && p as int < |images|
      modifies this`images, this`part, this`track, this`mustflush, errors
      ensures Valid() && |View()| == |old(View())| && Sound(old(View())[p])
      ensures ok == (old(View())[p].kind == DNP || Inside(old(View())[p], t, s))
      ensures var im := old(View())[p];
              View() == if im.kind == DNP || !Inside(im, t, s) || (!im.hasInfo && error == GOOD) then old(View())
                        else old(View())[p := WithError(if im.hasInfo then im else Added(im), t, s, error)]
    {
      hide SectorsPerTrack, SectorsBefore, WithTrack, SectorLba;
      ViewSound();
      if images[p].kind == DNP {
        return true;
      }
      if t < 1 || t > images[p].lastTrack || s as int >= SectorsPerTrack(images[p].kind, t) {
        return false;
      }
      if !images[p].hasInfo {
        if error == GOOD {
          return true;
        }
        AddInfo(p);
      }
      ViewSound();
      var loaded := Load(p, t);
      ViewSound();
      Poke(s, error);
      ok := true;
    }

    /** add_errorinfo: the image now has error info, which is good for every sector. No code any reader
        sees is another one than before. */
    method AddInfo(p: byte)
      requires Valid() && p as int < |images| && images[p].kind != DNP && !images[p].hasInfo
      modifies this`images
      ensures Valid() && View() == old(View())[p := Added(old(View())[p])] && images[p].hasInfo
      ensures View()[p].hasInfo && Sound(View()[p]) && Sound(old(View())[p])
      ensures forall t: byte, s: byte :: Inside(View()[p], t, s) ==>
                Inside(old(View())[p], t, s) && ErrorOf(View()[p], t, s) == GOOD == ErrorOf(old(View())[p], t, s)
      ensures images[p].kind == old(images[p].kind) && images[p].lastTrack == old(images[p].lastTrack)
    {
      hide SectorsPerTrack, SectorsBefore, WithTrack, SectorLba;
      ghost var before := View()[p];
      ViewSound();
      images := images[p := Added(images[p])];
      forall t: byte, s: byte | Inside(Added(before), t, s)
        ensures Inside(before, t, s) && ErrorOf(Added(before), t, s) == GOOD == ErrorOf(before, t, s)
      {
        AddedErrors(before, t, s);
      }
    }

    /** Change a code of the cached track. */
    method Poke(s: byte, error: byte)
      requires Valid() && part != NO_PART && Holds(View()[part], track, errors[..]) && Inside(View()[part], track, s)
      modifies this`mustflush, errors
      ensures Valid() && View() == old(View())[part := WithError(old(View())[part], track, s, error)]
    {
      hide SectorsPerTrack, SectorsBefore, SectorLba;
      HeldError(View()[part], track, errors[..], s);
      PokeTrack(View()[part], track, errors[..], s, error);
      ghost var im, was := images[part], errors[..];
      if mustflush {
        Rewritten(im, track, was, was[s := error]);
      }
      if errors[s] != error {
        errors[s] := error;
        mustflush := true;
      }
      assert errors[..] == was[s := error];
    }

    /** Mounting an image with error info throws the cache away, modified or not. The codes of the other
        images are what they were exactly when nothing that differs was waiting in the cache for them. */
    method Mount(p: byte, im: Image)
      requires Valid() && p as int < |images| && Sound(im) && im.hasInfo
      requires part != p
      modifies this`images, this`part
      ensures Valid() && View() == old(images)[p := im]
      ensures View() == old(View())[p := im] <==> old(part == NO_PART || !mustflush || Holds(images[part], track, errors[..]))
    {
      hide SectorsPerTrack, SectorsBefore, SectorLba, WithTrack;
      ghost var v, w, q := View(), images, part;
      if q != NO_PART && mustflush {
        assert v == w[q := WithTrack(w[q], track, errors[..])];
        assert v[p := im][q] == v[q] && w[p := im][q] == w[q];
        if v[q] == w[q] {
          assert v == w;
        }
      }
      images := images[p := im];
      part := NO_PART;
    }

    /** d64_unmount of a partition writes its codes back first. */
    method Unmount(p: byte)
      requires Valid() && p as int < |images|
      modifies this`images, this`part, this`mustflush
      ensures Valid() && View() == old(View()) && (old(part) == p ==> images == View())
    {
      if part == p {
        Commit();
        part := NO_PART;
      }
    }

    /** d64_extend_image: only a D41 image without error info, only to 42 tracks at most. */
    method ExtendImage(p: byte, tracks: byte) returns (ok: bool)
      requires Valid() && p as int < |images|
      modifies this`images
      ensures Valid() && |View()| == |old(View())| && Sound(old(View())[p])
      ensures var im := old(View())[p];
              && ok == (im.lastTrack >= tracks || (im.kind == D41 && !im.hasInfo && tracks <= 42))
              && View() == if im.lastTrack >= tracks || !ok || im.lastTrack < 35 then old(View()) else old(View())[p := Extended(im, tracks)]
      requires images[p].kind == D41 ==> images[p].lastTrack >= 35
    {
      hide SectorsPerTrack, SectorsBefore, SectorLba, WithTrack;
      ViewSound();
      var last := images[p].lastTrack;
      if last >= tracks {
        return true;
      }
      if images[p].kind != D41 || images[p].hasInfo || tracks > 42 {
        return false;
      }
      images := images[p := Extended(images[p], tracks)];
      ok := true;
    }
  }

  /** The codes after an extension, in the order of the sectors: good, then NO SYNC. */
  function Extended(im: Image, tracks: byte): (r: Image)
    requires Sound(im) && im.kind == D41 && !im.hasInfo && 35 <= im.lastTrack < tracks <= 42
    ensures Sound(r)
  {
    TotalSectors(D41, im.lastTrack);
    TotalSectors(D41, tracks);
    var old_ := SectorsBefore(D41, im.lastTrack + 1);
    Image(D41, tracks, true, seq(old_, _ => GOOD) + seq(17 * (tracks - im.lastTrack), _ => NO_SYNC))
  }

  /** Extending leaves every old sector good and marks exactly the new ones NO SYNC. */
  lemma ExtendedErrors(im: Image, tracks: byte, t: byte, s: byte)
    requires Sound(im) && im.kind == D41 && !im.hasInfo && 35 <= im.lastTrack < tracks <= 42
    requires Inside(Extended(im, tracks), t, s)
    ensures ErrorOf(Extended(im, tracks), t, s) == if t <= im.lastTrack then GOOD else NO_SYNC
    ensures Inside(im, t, s) <==> t <= im.lastTrack
  {
    hide SectorLba, SectorsPerTrack, SectorsBefore;
    TotalSectors(D41, im.lastTrack);
    TotalSectors(D41, tracks);
    LbaInDataArea(D41, tracks, t, s);
    if t <= im.lastTrack {
      LbaInDataArea(D41, im.lastTrack, t, s);
    } else {
      LbaIsPrefixSum(D41, t, s);
      SectorsBeforeAtLeast(im.lastTrack, t);
    }
  }

  lemma SectorsBeforeAtLeast(last: byte, t: byte)
    requires 1 <= last < t <= 42
    ensures SectorsBefore(D41, t) >= SectorsBefore(D41, last + 1)
  {
    if t > last + 1 {
      SectorsBeforeMonotone(D41, last + 1, t);
    }
  }
}

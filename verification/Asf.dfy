/** The ASF fixture patcher of xtask: turn an eligible PCM stream into WAVE_FORMAT_EXTENSIBLE. */
module Asf {
  import opened LittleEndian
  import opened Options

  /** A stored GUID, read as two little-endian words. */
  datatype Guid = Guid(low: nat, high: nat)

  // 8CABDCA1-A947-11CF-8EE4-00C00C205365, stored as a1 dc ab 8c 47 a9 cf 11 8e e4 00 c0 0c 20 53 65
  const FILE_PROPERTIES := Guid(0x11cf_a947_8cab_dca1, 0x6553_200c_c000_e48e)
  // B7DC0791-A9B7-11CF-8EE6-00C00C205365, stored as 91 07 dc b7 b7 a9 cf 11 8e e6 00 c0 0c 20 53 65
  const STREAM_PROPERTIES := Guid(0x11cf_a9b7_b7dc_0791, 0x6553_200c_c000_e68e)
  // F8699E40-5B4D-11CF-A8FD-00805F5C442B, stored as 40 9e 69 f8 4d 5b cf 11 a8 fd 00 80 5f 5c 44 2b
  const AUDIO_MEDIA := Guid(0x11cf_5b4d_f869_9e40, 0x2b44_5c5f_8000_fda8)

  function GuidAt(data: Bytes, offset: nat): Guid
    requires InBounds(data, offset, 16)
  {
    Guid(At(data, offset, 8), At(data, offset + 8, 8))
  }

  /** Sub-format GUID of PCM, the tail of the inserted bytes. */
  const PCM_SUBFORMAT: Bytes := [
    0x01, 0x00, 0x00, 0x00, 0x00, 0x00, 0x10, 0x00, 0x80, 0x00, 0x00, 0xaa, 0x00, 0x38, 0x9b, 0x71]

  const EXTENSION: nat := 22

  datatype Error =
    | Truncated(offset: nat)
    | InvalidHeaderSize
    | InvalidObjectSize(position: nat)
    | FilePropertiesNotFound
    | EligibleStreamNotFound
    | SizeOverflow

  /**
   * What one call leaves behind: an error, the file as it was, or new file contents. A call that
   * `Hangs` leaves nothing: its header loop never ends.
   */
  datatype Outcome = Refused(error: Error) | Unchanged | Rewritten(data: Bytes) | Hangs

  // ----- one header object ------------------------------------------------------------------

  /** What the loop body makes of the object at one position, apart from advancing past it. */
  datatype Verdict =
    | Broken(error: Error)
    | AlreadyExtensible
    | FileProperties
    | EligibleStream
    | Other

  predicate IsAudioStream(data: Bytes, position: nat)
    requires InBounds(data, position, 24)
  {
    && GuidAt(data, position) == STREAM_PROPERTIES
    && InBounds(data, position, 40)
    && GuidAt(data, position + 24) == AUDIO_MEDIA
  }

  function InspectStream(data: Bytes, position: nat): Verdict
    requires InBounds(data, position, 24)
  {
    var typeData := position + 78;
    if !InBounds(data, position + 64, 4) then Broken(Truncated(position + 64))
    else if !InBounds(data, typeData, 2) then Broken(Truncated(typeData))
    else
      var typeSize := At(data, position + 64, 4);
      var formatTag := At(data, typeData, 2);
      if typeSize >= 40 && formatTag == 0xfffe then
        if !InBounds(data, typeData + 24, 2) then Broken(Truncated(typeData + 24))
        else if At(data, typeData + 24, 2) == 1 then AlreadyExtensible
        else Other
      else if typeSize == 18 && formatTag == 1 then
        if !InBounds(data, typeData + 2, 2) then Broken(Truncated(typeData + 2))
        else if At(data, typeData + 2, 2) <= 2 then Other
        else if !InBounds(data, typeData + 14, 2) then Broken(Truncated(typeData + 14))
        else if At(data, typeData + 14, 2) > 16 then EligibleStream
        else Other
      else Other
  }

  function Inspect(data: Bytes, position: nat): Verdict
    requires InBounds(data, position, 24)
  {
    if GuidAt(data, position) == FILE_PROPERTIES then FileProperties
    else if IsAudioStream(data, position) then InspectStream(data, position)
    else Other
  }

  // ----- the scan of the header -------------------------------------------------------------

  datatype Scanned =
    | ScanRefused(error: Error)
    | ScanUnchanged
    | ScanStuck
    | ScanDone(fileProperties: Option<nat>, target: Option<nat>)

  /**
   * The header loop from `position` on. `ScanStuck` is the one way the loop never ends: an object
   * of size zero that neither fails nor finishes the call leaves `position` where it was.
   */
  function Scan(data: Bytes, position: nat, header: nat, fileProperties: Option<nat>, target: Option<nat>): Scanned
    decreases if position < header then header - position else 0
  {
    if position >= header then ScanDone(fileProperties, target)
    else if !InBounds(data, position + 16, 8) then ScanRefused(Truncated(position + 16))
    else
      var size := At(data, position + 16, 8);
      if position + size > header then ScanRefused(InvalidObjectSize(position))
      else
        match Inspect(data, position)
        case Broken(e) => ScanRefused(e)
        case AlreadyExtensible => ScanUnchanged
        case v =>
          if size == 0 then ScanStuck
          else
            Scan(data, position + size, header,
                 if v.FileProperties? then Some(position) else fileProperties,
                 if v.EligibleStream? then Some(position) else target)
  }

  function ScanFile(data: Bytes): Scanned {
    if !InBounds(data, 16, 8) then ScanRefused(Truncated(16))
    else
      var header := At(data, 16, 8);
      if header > |data| || header < 30 then ScanRefused(InvalidHeaderSize)
      else Scan(data, 30, header, None, None)
  }

  // ----- the patch --------------------------------------------------------------------------

  function Extension(bitsPerSample: nat): (e: Bytes)
    ensures |e| == EXTENSION
  {
    Encode(bitsPerSample, 2) + Encode(0x3f, 4) + PCM_SUBFORMAT
  }

  /** The six field writes, in source order. */
  function Writes(data: Bytes, fp: nat, tp: nat): (ws: seq<Write>)
    requires InBounds(data, 16, 8) && InBounds(data, fp + 40, 8) && InBounds(data, tp, 96)
    ensures AllInBounds(data, ws)
  {
    [ Write(tp + 78, Encode(0xfffe, 2)),
      Write(tp + 94, Encode(22, 2)),
      Write(fp + 40, Encode(At(data, fp + 40, 8) + EXTENSION, 8)),
      Write(16, Encode(At(data, 16, 8) + EXTENSION, 8)),
      Write(tp + 16, Encode(At(data, tp + 16, 8) + EXTENSION, 8)),
      Write(tp + 64, Encode(At(data, tp + 64, 4) + EXTENSION, 4)) ]
  }

  /** `inserted` put in front of the byte at `at`. */
  function Splice(data: Bytes, at: nat, inserted: Bytes): (out: Bytes)
    requires at <= |data|
    ensures |out| == |data| + |inserted|
  {
    data[..at] + inserted + data[at..]
  }

  /** The field writes in source order, then the splice after the 18-byte wave format. */
  function Patch(data: Bytes, fp: nat, tp: nat): (out: Bytes)
    requires InBounds(data, 16, 8) && InBounds(data, fp + 40, 8) && InBounds(data, tp, 96)
    ensures |out| == |data| + EXTENSION
  {
    Splice(WriteFields(data, fp, tp), tp + 96, Extension(At(data, tp + 92, 2)))
  }

  function WriteFields(data: Bytes, fp: nat, tp: nat): (r: Bytes)
    requires InBounds(data, 16, 8) && InBounds(data, fp + 40, 8) && InBounds(data, tp, 96)
    ensures |r| == |data|
  {
    var d1 := Overwrite(data, Write(tp + 78, Encode(0xfffe, 2)));
    var d2 := Overwrite(d1, Write(tp + 94, Encode(22, 2)));
    var d3 := Overwrite(d2, Write(fp + 40, Encode(At(data, fp + 40, 8) + EXTENSION, 8)));
    var d4 := Overwrite(d3, Write(16, Encode(At(data, 16, 8) + EXTENSION, 8)));
    var d5 := Overwrite(d4, Write(tp + 16, Encode(At(data, tp + 16, 8) + EXTENSION, 8)));
    Overwrite(d5, Write(tp + 64, Encode(At(data, tp + 64, 4) + EXTENSION, 4)))
  }

  lemma WriteFieldsApplies(data: Bytes, fp: nat, tp: nat)
    requires InBounds(data, 16, 8) && InBounds(data, fp + 40, 8) && InBounds(data, tp, 96)
    ensures WriteFields(data, fp, tp) == Apply(data, Writes(data, fp, tp))
  {
    var ws := Writes(data, fp, tp);
    ApplyThree(data, ws);
    var d3 := Overwrite(Overwrite(Overwrite(data, ws[0]), ws[1]), ws[2]);
    ApplyThree(d3, ws[3..]);
  }

  function PatchChecked(data: Bytes, fp: nat, tp: nat): Outcome
    requires InBounds(data, 16, 8) && InBounds(data, tp, 94)
  {
    if !InBounds(data, fp + 40, 8) then Refused(Truncated(fp + 40))
    else if !InBounds(data, tp + 94, 2) then Refused(Truncated(tp + 94))
    else if At(data, fp + 40, 8) + EXTENSION >= U64 then Refused(SizeOverflow)
    else if At(data, 16, 8) + EXTENSION >= U64 then Refused(SizeOverflow)
    else if At(data, tp + 16, 8) + EXTENSION >= U64 then Refused(SizeOverflow)
    else if At(data, tp + 64, 4) + EXTENSION >= U32 then Refused(SizeOverflow)
    else Rewritten(Patch(data, fp, tp))
  }

  /** An object the scan calls eligible has all its format fields inside the file. */
  lemma {:induction false} ScanTargetInBounds(data: Bytes, position: nat, header: nat, fp: Option<nat>, tp: Option<nat>)
    requires tp.Some? ==> InBounds(data, tp.value, 94)
    ensures
      var s := Scan(data, position, header, fp, tp);
      s.ScanDone? && s.target.Some? ==> InBounds(data, s.target.value, 94)
    decreases if position < header then header - position else 0
  {
    if position < header && InBounds(data, position + 16, 8) {
      var size := At(data, position + 16, 8);
      var v := Inspect(data, position);
      if position + size <= header && !v.Broken? && !v.AlreadyExtensible? && size > 0 {
        ScanTargetInBounds(data, position + size, header,
                           if v.FileProperties? then Some(position) else fp,
                           if v.EligibleStream? then Some(position) else tp);
      }
    }
  }

  /** The whole call on the contents of the file, wherever the header loop ends. */
  function Rewrite(data: Bytes): Outcome {
    match ScanFile(data)
    case ScanStuck => Hangs
    case ScanRefused(e) => Refused(e)
    case ScanUnchanged => Unchanged
    case ScanDone(fp, tp) =>
      if fp.None? then Refused(FilePropertiesNotFound)
      else if tp.None? then Refused(EligibleStreamNotFound)
      else
        ScanTargetInBounds(data, 30, At(data, 16, 8), None, None);
        PatchChecked(data, fp.value, tp.value)
  }

  // ----- when the header loop never ends ------------------------------------------------------

  /** The loop body at the position neither fails nor ends the call. */
  predicate Passes(data: Bytes, position: nat, header: nat) {
    && position < header && InBounds(data, position + 16, 8)
    && position + At(data, position + 16, 8) <= header
    && !Inspect(data, position).Broken? && !Inspect(data, position).AlreadyExtensible?
  }

  /** The loop comes from one position to another, over objects that it passes. */
  predicate Reaches(data: Bytes, position: nat, header: nat, z: nat)
    decreases if position < header then header - position else 0
  {
    || position == z
    || (Passes(data, position, header) && At(data, position + 16, 8) > 0
        && Reaches(data, position + At(data, position + 16, 8), header, z))
  }

  predicate ZeroAt(data: Bytes, header: nat, z: nat) {
    Passes(data, z, header) && At(data, z + 16, 8) == 0
  }

  /** The loop over a header of legal size comes to an object of size zero and passes it. */
  predicate MeetsZeroSize(data: Bytes) {
    && InBounds(data, 16, 8) && 30 <= At(data, 16, 8) <= |data|
    && exists z: nat :: z < At(data, 16, 8) && Reaches(data, 30, At(data, 16, 8), z) && ZeroAt(data, At(data, 16, 8), z)
  }

  lemma {:induction false} StuckReaches(
    data: Bytes, position: nat, header: nat, fp: Option<nat>, tp: Option<nat>)
    ensures Scan(data, position, header, fp, tp).ScanStuck? ==>
      exists z: nat :: z < header && Reaches(data, position, header, z) && ZeroAt(data, header, z)
    decreases if position < header then header - position else 0
  {
    hide At, Inspect;
    if Scan(data, position, header, fp, tp).ScanStuck? {
      var size := At(data, position + 16, 8);
      if size == 0 {
        assert Reaches(data, position, header, position) && ZeroAt(data, header, position);
      } else {
        var v := Inspect(data, position);
        StuckReaches(data, position + size, header,
                     if v.FileProperties? then Some(position) else fp,
                     if v.EligibleStream? then Some(position) else tp);
        var z: nat :| z < header && Reaches(data, position + size, header, z) && ZeroAt(data, header, z);
        assert Reaches(data, position, header, z);
      }
    }
  }

  lemma {:induction false} ReachesStuck(
    data: Bytes, position: nat, header: nat, fp: Option<nat>, tp: Option<nat>, z: nat)
    requires Reaches(data, position, header, z) && ZeroAt(data, header, z)
    ensures Scan(data, position, header, fp, tp).ScanStuck?
    decreases if position < header then header - position else 0
  {
    hide At, Inspect;
    if position != z {
      var v := Inspect(data, position);
      ReachesStuck(data, position + At(data, position + 16, 8), header,
                   if v.FileProperties? then Some(position) else fp,
                   if v.EligibleStream? then Some(position) else tp, z);
    }
  }

  /** The call hangs exactly when its loop meets an object of size zero that neither fails nor ends the call. */
  lemma HangsExactlyWhen(data: Bytes)
    ensures Rewrite(data).Hangs? <==> MeetsZeroSize(data)
  {
    hide At, Scan, Reaches, ZeroAt;
    if InBounds(data, 16, 8) {
      var header := At(data, 16, 8);
      StuckReaches(data, 30, header, None, None);
      if MeetsZeroSize(data) {
        var z: nat :| z < header && Reaches(data, 30, header, z) && ZeroAt(data, header, z);
        ReachesStuck(data, 30, header, None, None, z);
      }
    }
  }

  /** A header of 54 bytes whose one object is all zero. */
  function ZeroSized(): Bytes {
    seq(54, i => if i == 16 then 54 else 0)
  }

  lemma {:induction false} ZeroField(field: Bytes)
    requires forall i :: 0 <= i < |field| ==> field[i] == 0
    ensures Decode(field) == 0
    decreases |field|
  {
    if field != [] {
      ZeroField(field[1..]);
    }
  }

  lemma ZeroSizedFields()
    ensures |ZeroSized()| == 54 && At(ZeroSized(), 16, 8) == 54
    ensures GuidAt(ZeroSized(), 30) == Guid(0, 0) && At(ZeroSized(), 46, 8) == 0
  {
    var data := ZeroSized();
    ZeroField(data[17..24]);
    assert data[16..24][1..] == data[17..24] && data[16..24][0] == 54;
    ZeroField(data[30..38]);
    ZeroField(data[38..46]);
    ZeroField(data[46..54]);
  }

  /** Such a file makes the call hang. */
  lemma ZeroSizedHangs()
    ensures |ZeroSized()| == 54 && Rewrite(ZeroSized()) == Hangs
  {
    hide At, ZeroSized, Rewrite;
    ZeroSizedFields();
    assert Inspect(ZeroSized(), 30) == Other;
    assert Reaches(ZeroSized(), 30, 54, 30) && ZeroAt(ZeroSized(), 54, 30);
    HangsExactlyWhen(ZeroSized());
  }

  /** The tail of the call: old values read first, then the field writes in place, then the splice. */
  method PatchInPlace(file: Bytes, fp: nat, tp: nat) returns (r: Outcome)
    requires InBounds(file, 16, 8) && InBounds(file, tp, 94)
    ensures r == PatchChecked(file, fp, tp)
  {
    hide At, Encode, Splice;
    if !InBounds(file, fp + 40, 8) { return Refused(Truncated(fp + 40)); }
    var oldFileSize, oldHeaderSize := At(file, fp + 40, 8), At(file, 16, 8);
    var oldObjectSize, oldTypeSize := At(file, tp + 16, 8), At(file, tp + 64, 4);
    var bitsPerSample := At(file, tp + 92, 2);

    var data := Overwrite(file, Write(tp + 78, Encode(0xfffe, 2)));
    if !InBounds(data, tp + 94, 2) { return Refused(Truncated(tp + 94)); }
    data := Overwrite(data, Write(tp + 94, Encode(22, 2)));
    if oldFileSize + EXTENSION >= U64 { return Refused(SizeOverflow); }
    data := Overwrite(data, Write(fp + 40, Encode(oldFileSize + EXTENSION, 8)));
    if oldHeaderSize + EXTENSION >= U64 { return Refused(SizeOverflow); }
    data := Overwrite(data, Write(16, Encode(oldHeaderSize + EXTENSION, 8)));
    if oldObjectSize + EXTENSION >= U64 { return Refused(SizeOverflow); }
    data := Overwrite(data, Write(tp + 16, Encode(oldObjectSize + EXTENSION, 8)));
    if oldTypeSize + EXTENSION >= U32 { return Refused(SizeOverflow); }
    data := Overwrite(data, Write(tp + 64, Encode(oldTypeSize + EXTENSION, 4)));
    return Rewritten(Splice(data, tp + 96, Extension(bitsPerSample)));
  }

  /** The patcher as written: one pass over the header, then the patch. */
  method RewritePcmAsWaveExtensible(file: Bytes) returns (r: Outcome)
    requires !MeetsZeroSize(file)
    ensures r == Rewrite(file)
  {
    HangsExactlyWhen(file);
    hide MeetsZeroSize;
    if !InBounds(file, 16, 8) { return Refused(Truncated(16)); }
    var header := At(file, 16, 8);
    if header > |file| || header < 30 { return Refused(InvalidHeaderSize); }

    var position := 30;
    var fileProperties: Option<nat> := None;
    var target: Option<nat> := None;
    while position < header
      invariant Scan(file, position, header, fileProperties, target) == ScanFile(file)
      decreases header - position
    {
      if !InBounds(file, position + 16, 8) { return Refused(Truncated(position + 16)); }
      var size := At(file, position + 16, 8);
      if position + size > header { return Refused(InvalidObjectSize(position)); }
      match Inspect(file, position) {
        case Broken(e) => return Refused(e);
        case AlreadyExtensible => return Unchanged;
        case FileProperties => fileProperties := Some(position);
        case EligibleStream => target := Some(position);
        case Other =>
      }
      position := position + size;
    }
    if fileProperties.None? { return Refused(FilePropertiesNotFound); }
    if target.None? { return Refused(EligibleStreamNotFound); }
    var fp, tp := fileProperties.value, target.value;
    ScanTargetInBounds(file, 30, header, None, None);

    r := PatchInPlace(file, fp, tp);
  }

  // ----- well-formed headers ----------------------------------------------------------------

  /** One object as a reader of the format sees it. */
  datatype Object = Object(offset: nat, guid: Guid, size: nat)

  /** The objects that tile `position..header` exactly, or `None` when they do not. */
  function Walk(data: Bytes, position: nat, header: nat): Option<seq<Object>>
    decreases if position < header then header - position else 0
  {
    if position >= header then if position == header then Some([]) else None
    else if !InBounds(data, position, 24) || At(data, position + 16, 8) < 24 then None
    else
      var size := At(data, position + 16, 8);
      var rest := Walk(data, position + size, header);
      if rest.None? then None
      else Some([Object(position, GuidAt(data, position), size)] + rest.value)
  }

  /** The object is large enough for the fields the patcher reads from it. */
  predicate Roomy(data: Bytes, position: nat, size: nat)
    requires InBounds(data, position, 24) && InBounds(data, position, size)
  {
    && (GuidAt(data, position) == FILE_PROPERTIES ==> size >= 48)
    && (GuidAt(data, position) == STREAM_PROPERTIES ==> size >= 40)
    && (size >= 40 && IsAudioStream(data, position) ==>
          && size >= 80
          && (At(data, position + 64, 4) == 18 ==> size >= 96)
          && (At(data, position + 64, 4) >= 40 ==> size >= 104))
  }

  predicate RoomyObject(data: Bytes, o: Object) {
    InBounds(data, o.offset, 24) && InBounds(data, o.offset, o.size) && Roomy(data, o.offset, o.size)
  }

  predicate AllRoomy(data: Bytes, objects: seq<Object>) {
    objects == [] || (RoomyObject(data, objects[0]) && AllRoomy(data, objects[1..]))
  }

  lemma {:induction false} AllRoomyMember(data: Bytes, objects: seq<Object>, o: Object)
    requires AllRoomy(data, objects) && o in objects
    ensures RoomyObject(data, o)
  {
    if o != objects[0] {
      AllRoomyMember(data, objects[1..], o);
    }
  }

  /** The objects of a well-formed header, or `None` when the header is not well-formed. */
  function Header(data: Bytes): Option<seq<Object>> {
    if InBounds(data, 16, 8) && 30 <= At(data, 16, 8) <= |data| then
      var objects := Walk(data, 30, At(data, 16, 8));
      if objects.Some? && AllRoomy(data, objects.value) then objects else None
    else None
  }

  predicate WellFormed(data: Bytes) {
    Header(data).Some?
  }

  // ----- what the patch does to single bytes and fields --------------------------------------

  /** The byte at `k` of the input lies in one of the six fields the patch overwrites. */
  predicate Patched(k: nat, fp: nat, tp: nat) {
    || 16 <= k < 24
    || fp + 40 <= k < fp + 48
    || tp + 16 <= k < tp + 24
    || tp + 64 <= k < tp + 68
    || tp + 78 <= k < tp + 80
    || tp + 94 <= k < tp + 96
  }

  /** Where the byte at `k` of the input ends up. */
  function Moved(k: nat, tp: nat): nat {
    if k < tp + 96 then k else k + EXTENSION
  }

  lemma KeptAfterSplice(data: Bytes, ws: seq<Write>, at: nat, inserted: Bytes, k: nat)
    requires AllInBounds(data, ws) && at <= |data| && k < |data|
    requires forall i :: 0 <= i < |ws| ==> k < ws[i].offset || ws[i].End() <= k
    ensures Splice(Apply(data, ws), at, inserted)[if k < at then k else k + |inserted|] == data[k]
  {
    ApplyKeeps(data, ws, k);
  }

  lemma SpliceKeepsField(data: Bytes, at: nat, inserted: Bytes, o: nat, n: nat)
    requires at <= |data| && InBounds(data, o, n) && 0 < n
    requires o + n <= at || at <= o
    ensures
      var o' := if o < at then o else o + |inserted|;
      Splice(data, at, inserted)[o'..o' + n] == data[o..o + n]
  {
    if o < at {
      assert Splice(data, at, inserted)[o..o + n] == data[o..o + n];
    } else {
      assert Splice(data, at, inserted)[o + |inserted|..o + |inserted| + n] == data[o..o + n];
    }
  }

  lemma SpliceKeepsWrite(body: Bytes, w: Write, at: nat, inserted: Bytes)
    requires at <= |body| && InBounds(body, w.offset, |w.field|) && body[w.offset..w.End()] == w.field
    requires 0 < |w.field| && (w.End() <= at || at <= w.offset)
    ensures
      var o := if w.offset < at then w.offset else w.offset + |inserted|;
      Splice(body, at, inserted)[o..o + |w.field|] == w.field
  {
    hide Splice;
    SpliceKeepsField(body, at, inserted, w.offset, |w.field|);
  }

  lemma HeldAfterSplice(data: Bytes, ws: seq<Write>, at: nat, inserted: Bytes, i: nat)
    requires AllInBounds(data, ws) && Disjoint(ws) && at <= |data| && i < |ws|
    requires 0 < |ws[i].field| && (ws[i].End() <= at || at <= ws[i].offset)
    ensures
      var o := if ws[i].offset < at then ws[i].offset else ws[i].offset + |inserted|;
      Splice(Apply(data, ws), at, inserted)[o..o + |ws[i].field|] == ws[i].field
  {
    hide Splice, Apply, Disjoint;
    ApplyHolds(data, ws, i);
    SpliceKeepsWrite(Apply(data, ws), ws[i], at, inserted);
  }

  lemma PatchKeepsByte(data: Bytes, fp: nat, tp: nat, k: nat)
    requires InBounds(data, 16, 8) && InBounds(data, fp + 40, 8) && InBounds(data, tp, 96)
    requires k < |data| && !Patched(k, fp, tp)
    ensures Patch(data, fp, tp)[Moved(k, tp)] == data[k]
  {
    hide At, Encode, Apply, WriteFields, Splice;
    WriteFieldsApplies(data, fp, tp);
    KeptAfterSplice(data, Writes(data, fp, tp), tp + 96, Extension(At(data, tp + 92, 2)), k);
  }

  /** Every byte outside the patched fields is the input byte, shifted after the splice. */
  lemma PatchKeepsOtherBytes(data: Bytes, fp: nat, tp: nat)
    requires InBounds(data, 16, 8) && InBounds(data, fp + 40, 8) && InBounds(data, tp, 96)
    ensures forall k :: 0 <= k < |data| && !Patched(k, fp, tp) ==> Patch(data, fp, tp)[Moved(k, tp)] == data[k]
  {
    forall k | 0 <= k < |data| && !Patched(k, fp, tp)
      ensures Patch(data, fp, tp)[Moved(k, tp)] == data[k]
    {
      PatchKeepsByte(data, fp, tp, k);
    }
  }

  /** The two objects that are patched lie in the header and do not overlap. */
  predicate Apart(fp: nat, tp: nat) {
    30 <= fp && 30 <= tp && (fp + 48 <= tp || tp + 96 <= fp)
  }

  lemma WritesAreDisjoint(data: Bytes, fp: nat, tp: nat)
    requires InBounds(data, 16, 8) && InBounds(data, fp + 40, 8) && InBounds(data, tp, 96) && Apart(fp, tp)
    ensures Disjoint(Writes(data, fp, tp))
  {
  }

  /** Each written field holds exactly what was written, at its place in the output. */
  lemma PatchWrites(data: Bytes, fp: nat, tp: nat, i: nat)
    requires InBounds(data, 16, 8) && InBounds(data, fp + 40, 8) && InBounds(data, tp, 96) && Apart(fp, tp)
    requires i < 6
    ensures
      var w := Writes(data, fp, tp)[i];
      Patch(data, fp, tp)[Moved(w.offset, tp)..Moved(w.offset, tp) + |w.field|] == w.field
  {
    hide At, Encode, Apply, WriteFields, Splice;
    WritesAreDisjoint(data, fp, tp);
    WriteFieldsApplies(data, fp, tp);
    HeldAfterSplice(data, Writes(data, fp, tp), tp + 96, Extension(At(data, tp + 92, 2)), i);
  }

  // ----- from bytes to objects ----------------------------------------------------------------

  ghost predicate BytesKept(data: Bytes, out: Bytes, fp: nat, tp: nat) {
    && |out| == |data| + EXTENSION
    && forall k :: 0 <= k < |data| && !Patched(k, fp, tp) ==> out[Moved(k, tp)] == data[k]
  }

  /** What the walk needs to know about a patched file, with the bytes of the patch left behind. */
  ghost predicate Relates(data: Bytes, out: Bytes, fp: nat, tp: nat) {
    && InBounds(data, 16, 8) && InBounds(data, fp + 40, 8) && InBounds(data, tp, 96) && Apart(fp, tp)
    && |out| == |data| + EXTENSION
    && BytesKept(data, out, fp, tp)
    && At(out, 16, 8) == At(data, 16, 8) + EXTENSION
    && At(out, Moved(fp + 40, tp), 8) == At(data, fp + 40, 8) + EXTENSION
    && At(out, tp + 16, 8) == At(data, tp + 16, 8) + EXTENSION
    && At(out, tp + 64, 4) == At(data, tp + 64, 4) + EXTENSION
    && At(out, tp + 78, 2) == 0xfffe
    && At(out, tp + 94, 2) == 22
    && At(out, tp + 96, 2) == At(data, tp + 92, 2)
    && At(out, tp + 102, 2) == 1
  }

  lemma Capacities()
    ensures Capacity(2) == 0x1_0000 && Capacity(4) == U32 && Capacity(8) == U64
  {
    assert Capacity(2) == 0x1_0000;
    assert Capacity(4) == 256 * (256 * Capacity(2));
    assert Capacity(6) == 256 * (256 * Capacity(4));
    assert Capacity(8) == 256 * (256 * Capacity(6));
  }

  lemma PatchField(data: Bytes, fp: nat, tp: nat, i: nat, v: nat)
    requires InBounds(data, 16, 8) && InBounds(data, fp + 40, 8) && InBounds(data, tp, 96) && Apart(fp, tp)
    requires i < 6
    requires
      var w := Writes(data, fp, tp)[i];
      v < Capacity(|w.field|) && w.field == Encode(v, |w.field|)
    ensures
      var w := Writes(data, fp, tp)[i];
      At(Patch(data, fp, tp), Moved(w.offset, tp), |w.field|) == v
  {
    PatchWrites(data, fp, tp, i);
    var w := Writes(data, fp, tp)[i];
    DecodeEncode(v, |w.field|);
  }

  /** The inserted bytes carry the old sample width and open with sub-format 1 at offset 6. */
  lemma SplicedFields(data: Bytes, at: nat, bits: nat)
    requires at <= |data| && bits < Capacity(2)
    ensures At(Splice(data, at, Extension(bits)), at, 2) == bits
    ensures At(Splice(data, at, Extension(bits)), at + 6, 2) == 1
  {
    var out := Splice(data, at, Extension(bits));
    assert out[at..at + 2] == Encode(bits, 2);
    DecodeEncode(bits, 2);
    assert out[at + 6..at + 8] == [1, 0];
    assert [1, 0][1..] == [0];
    assert Decode([1, 0]) == 1 + 256 * Decode([0]);
    assert Decode([0]) == 0 + 256 * Decode([]);
  }

  lemma PatchedFormat(data: Bytes, fp: nat, tp: nat)
    requires InBounds(data, 16, 8) && InBounds(data, fp + 40, 8) && InBounds(data, tp, 96) && Apart(fp, tp)
    ensures At(Patch(data, fp, tp), tp + 78, 2) == 0xfffe
    ensures At(Patch(data, fp, tp), tp + 94, 2) == 22
  {
    hide At, Encode, Patch;
    Capacities();
    PatchField(data, fp, tp, 0, 0xfffe);
    PatchField(data, fp, tp, 1, 22);
  }

  lemma PatchedFileSize(data: Bytes, fp: nat, tp: nat)
    requires InBounds(data, 16, 8) && InBounds(data, fp + 40, 8) && InBounds(data, tp, 96) && Apart(fp, tp)
    requires At(data, fp + 40, 8) + EXTENSION < U64
    ensures At(Patch(data, fp, tp), Moved(fp + 40, tp), 8) == At(data, fp + 40, 8) + EXTENSION
  {
    hide At, Encode, Patch;
    Capacities();
    PatchField(data, fp, tp, 2, At(data, fp + 40, 8) + EXTENSION);
  }

  lemma PatchedHeaderSize(data: Bytes, fp: nat, tp: nat)
    requires InBounds(data, 16, 8) && InBounds(data, fp + 40, 8) && InBounds(data, tp, 96) && Apart(fp, tp)
    requires At(data, 16, 8) + EXTENSION < U64
    ensures At(Patch(data, fp, tp), 16, 8) == At(data, 16, 8) + EXTENSION
  {
    hide At, Encode, Patch;
    Capacities();
    PatchField(data, fp, tp, 3, At(data, 16, 8) + EXTENSION);
  }

  lemma PatchedObjectSize(data: Bytes, fp: nat, tp: nat)
    requires InBounds(data, 16, 8) && InBounds(data, fp + 40, 8) && InBounds(data, tp, 96) && Apart(fp, tp)
    requires At(data, tp + 16, 8) + EXTENSION < U64
    ensures At(Patch(data, fp, tp), tp + 16, 8) == At(data, tp + 16, 8) + EXTENSION
  {
    hide At, Encode, Patch;
    Capacities();
    PatchField(data, fp, tp, 4, At(data, tp + 16, 8) + EXTENSION);
  }

  lemma PatchedTypeSize(data: Bytes, fp: nat, tp: nat)
    requires InBounds(data, 16, 8) && InBounds(data, fp + 40, 8) && InBounds(data, tp, 96) && Apart(fp, tp)
    requires At(data, tp + 64, 4) + EXTENSION < U32
    ensures At(Patch(data, fp, tp), tp + 64, 4) == At(data, tp + 64, 4) + EXTENSION
  {
    hide At, Encode, Patch;
    Capacities();
    PatchField(data, fp, tp, 5, At(data, tp + 64, 4) + EXTENSION);
  }

  lemma PatchRelates(data: Bytes, fp: nat, tp: nat)
    requires InBounds(data, 16, 8) && InBounds(data, fp + 40, 8) && InBounds(data, tp, 96) && Apart(fp, tp)
    requires At(data, fp + 40, 8) + EXTENSION < U64 && At(data, 16, 8) + EXTENSION < U64
    requires At(data, tp + 16, 8) + EXTENSION < U64 && At(data, tp + 64, 4) + EXTENSION < U32
    ensures Relates(data, Patch(data, fp, tp), fp, tp)
  {
    hide At;
    PatchKeepsOtherBytes(data, fp, tp);
    PatchedFormat(data, fp, tp);
    PatchedFileSize(data, fp, tp);
    PatchedHeaderSize(data, fp, tp);
    PatchedObjectSize(data, fp, tp);
    PatchedTypeSize(data, fp, tp);
    AtIsBounded(data, tp + 92, 2);
    SplicedFields(WriteFields(data, fp, tp), tp + 96, At(data, tp + 92, 2));
  }

  /** `n` bytes of `a` from `i` on reappear in `b` from `j` on. */
  ghost predicate Copied(a: Bytes, i: nat, b: Bytes, j: nat, n: nat) {
    && InBounds(a, i, n) && InBounds(b, j, n)
    && forall k :: i <= k < i + n ==> b[k + (j - i)] == a[k]
  }

  lemma CopiedPart(a: Bytes, i: nat, b: Bytes, j: nat, n: nat, d: nat, m: nat)
    requires Copied(a, i, b, j, n) && d + m <= n
    ensures At(a, i + d, m) == At(b, j + d, m)
  {
    var s, t := a[i + d..i + d + m], b[j + d..j + d + m];
    forall k | 0 <= k < m
      ensures s[k] == t[k]
    {
      assert a[i + d + k] == b[(i + d + k) + (j - i)];
    }
    assert s == t;
  }

  lemma CopiedGuid(a: Bytes, i: nat, b: Bytes, j: nat, n: nat, d: nat)
    requires Copied(a, i, b, j, n) && d + 16 <= n
    ensures GuidAt(a, i + d) == GuidAt(b, j + d)
  {
    CopiedPart(a, i, b, j, n, d, 8);
    CopiedPart(a, i, b, j, n, d + 8, 8);
  }

  lemma CopiedHead(a: Bytes, i: nat, b: Bytes, j: nat, n: nat)
    requires Copied(a, i, b, j, n) && n >= 24
    ensures GuidAt(a, i) == GuidAt(b, j)
    ensures At(a, i + 16, 8) == At(b, j + 16, 8)
  {
    CopiedGuid(a, i, b, j, n, 0);
    CopiedPart(a, i, b, j, n, 16, 8);
  }

  lemma CopiedAudio(a: Bytes, i: nat, b: Bytes, j: nat, n: nat)
    requires Copied(a, i, b, j, n) && n >= 24
    requires GuidAt(a, i) == STREAM_PROPERTIES ==> n >= 40
    ensures IsAudioStream(a, i) == IsAudioStream(b, j)
  {
    CopiedHead(a, i, b, j, n);
    if GuidAt(a, i) == STREAM_PROPERTIES {
      CopiedGuid(a, i, b, j, n, 24);
    }
  }

  /** An object copied whole is judged the same, and it is never broken. */
  lemma CopiedObject(a: Bytes, i: nat, b: Bytes, j: nat, n: nat)
    requires Copied(a, i, b, j, n) && n >= 24 && Roomy(a, i, n)
    ensures Inspect(a, i) == Inspect(b, j)
    ensures Roomy(b, j, n)
  {
    hide At;
    CopiedHead(a, i, b, j, n);
    CopiedAudio(a, i, b, j, n);
    if IsAudioStream(a, i) {
      CopiedPart(a, i, b, j, n, 64, 4);
      CopiedPart(a, i, b, j, n, 78, 2);
      if At(a, i + 64, 4) == 18 {
        CopiedPart(a, i, b, j, n, 80, 2);
        CopiedPart(a, i, b, j, n, 92, 2);
      }
      if At(a, i + 64, 4) >= 40 {
        CopiedPart(a, i, b, j, n, 102, 2);
      }
    }
  }

  // ----- the walk over the patched file -------------------------------------------------------

  /** `o` describes what lies at its offset. */
  predicate Describes(data: Bytes, o: Object) {
    && 24 <= o.size && InBounds(data, o.offset, o.size)
    && o.guid == GuidAt(data, o.offset)
    && o.size == At(data, o.offset + 16, 8)
  }

  predicate Separate(a: Object, b: Object) {
    a == b || a.offset + a.size <= b.offset || b.offset + b.size <= a.offset
  }

  lemma {:induction false} WalkEnds(data: Bytes, position: nat, header: nat)
    requires Walk(data, position, header).Some?
    ensures position <= header
    ensures position == header ==> Walk(data, position, header) == Some([])
  {
  }

  lemma WalkUnfold(data: Bytes, position: nat, header: nat)
    requires Walk(data, position, header).Some? && position < header
    ensures InBounds(data, position, 24)
    ensures
      var objects := Walk(data, position, header).value;
      && objects != []
      && objects[0].offset == position && objects[0].size == At(data, position + 16, 8) >= 24
      && Walk(data, position + objects[0].size, header) == Some(objects[1..])
  {
    var rest := Walk(data, position + At(data, position + 16, 8), header).value;
    assert Walk(data, position, header).value[1..] == rest;
  }

  lemma {:induction false} WalkMember(data: Bytes, position: nat, header: nat, o: Object)
    requires header <= |data|
    requires Walk(data, position, header).Some? && o in Walk(data, position, header).value
    ensures Describes(data, o)
    ensures position <= o.offset && o.offset + o.size <= header
    decreases if position < header then header - position else 0
  {
    hide At;
    WalkUnfold(data, position, header);
    var first := Walk(data, position, header).value[0];
    WalkEnds(data, position + first.size, header);
    if o != first {
      WalkMember(data, position + first.size, header, o);
    }
  }

  /** The objects of one walk do not overlap. */
  lemma {:induction false} WalkSeparates(data: Bytes, position: nat, header: nat, a: Object, b: Object)
    requires header <= |data| && Walk(data, position, header).Some?
    requires a in Walk(data, position, header).value && b in Walk(data, position, header).value
    ensures Separate(a, b)
    decreases if position < header then header - position else 0
  {
    hide At;
    WalkUnfold(data, position, header);
    var first := Walk(data, position, header).value[0];
    var next := position + first.size;
    if a != first { WalkMember(data, next, header, a); }
    if b != first { WalkMember(data, next, header, b); }
    if a != first && b != first {
      WalkSeparates(data, next, header, a, b);
    }
  }

  /** The object as it must appear in the output: shifted after the splice, the target grown. */
  function MoveObject(o: Object, tp: nat): Object {
    Object(Moved(o.offset, tp), o.guid, if o.offset == tp then o.size + EXTENSION else o.size)
  }

  function MoveAll(objects: seq<Object>, tp: nat): (moved: seq<Object>)
    ensures |moved| == |objects|
  {
    if objects == [] then [] else [MoveObject(objects[0], tp)] + MoveAll(objects[1..], tp)
  }

  lemma {:induction false} MoveAllAt(objects: seq<Object>, tp: nat, i: nat)
    requires i < |objects|
    ensures MoveAll(objects, tp)[i] == MoveObject(objects[i], tp)
  {
    if i > 0 {
      MoveAllAt(objects[1..], tp, i - 1);
    }
  }

  /** The output holds `o`, moved, and goes on where the next object is moved to. */
  ghost predicate Arrived(out: Bytes, o: Object, tp: nat) {
    && 24 <= o.size
    && Describes(out, MoveObject(o, tp))
    && Moved(o.offset, tp) + MoveObject(o, tp).size == Moved(o.offset + o.size, tp)
  }

  lemma WalkFold(data: Bytes, o: Object, header: nat, rest: seq<Object>)
    requires Describes(data, o) && o.offset < header
    requires Walk(data, o.offset + o.size, header) == Some(rest)
    ensures Walk(data, o.offset, header) == Some([o] + rest)
  {
  }

  ghost predicate AllArrived(out: Bytes, objects: seq<Object>, tp: nat) {
    objects == [] || (Arrived(out, objects[0], tp) && AllArrived(out, objects[1..], tp))
  }

  /** Walking the output visits the same objects, the target grown, the later ones shifted. */
  lemma {:induction false} WalkMoved(data: Bytes, out: Bytes, tp: nat, position: nat, header: nat, objects: seq<Object>)
    requires Walk(data, position, header) == Some(objects)
    requires AllArrived(out, objects, tp)
    requires tp + 96 <= header
    ensures Walk(out, Moved(position, tp), header + EXTENSION) == Some(MoveAll(objects, tp))
    decreases |objects|
  {
    hide At;
    WalkEnds(data, position, header);
    if position < header {
      WalkUnfold(data, position, header);
      WalkMoved(data, out, tp, position + objects[0].size, header, objects[1..]);
      WalkFold(out, MoveObject(objects[0], tp), header + EXTENSION, MoveAll(objects[1..], tp));
    }
  }

  lemma WholeWalkMoved(data: Bytes, out: Bytes, tp: nat, header: nat, objects: seq<Object>)
    requires Walk(data, 30, header) == Some(objects)
    requires AllArrived(out, objects, tp)
    requires 30 <= tp && tp + 96 <= header
    ensures Walk(out, 30, header + EXTENSION) == Some(MoveAll(objects, tp))
  {
    hide At;
    WalkMoved(data, out, tp, 30, header, objects);
  }

  /** A range that meets none of the patched fields and does not straddle the splice. */
  lemma KeptRange(data: Bytes, out: Bytes, fp: nat, tp: nat, i: nat, n: nat)
    requires BytesKept(data, out, fp, tp) && InBounds(data, i, n) && 0 < n
    requires forall k :: i <= k < i + n ==> !Patched(k, fp, tp)
    requires i + n <= tp + 96 || tp + 96 <= i
    ensures Copied(data, i, out, Moved(i, tp), n)
  {
    var place := Moved(i, tp);
    forall k | i <= k < i + n
      ensures out[k + (place - i)] == data[k]
    {
      assert !Patched(k, fp, tp);
      assert Moved(k, tp) == k + (place - i);
    }
  }

  /** The file properties object and the target, as objects of the same header. */
  ghost predicate Pair(data: Bytes, f: Object, t: Object) {
    && InBounds(data, f.offset, f.size) && 30 <= f.offset && 48 <= f.size
    && InBounds(data, t.offset, t.size) && 30 <= t.offset && 96 <= t.size
    && f != t && Separate(f, t)
  }

  /** An object other than the two patched ones is copied whole to its new place. */
  lemma UntouchedObject(data: Bytes, out: Bytes, f: Object, t: Object, o: Object)
    requires BytesKept(data, out, f.offset, t.offset) && Pair(data, f, t)
    requires Describes(data, o) && 30 <= o.offset && o != f && o != t && Separate(o, f) && Separate(o, t)
    ensures Copied(data, o.offset, out, Moved(o.offset, t.offset), o.size)
  {
    KeptRange(data, out, f.offset, t.offset, o.offset, o.size);
  }

  lemma OtherArrived(data: Bytes, out: Bytes, f: Object, t: Object, o: Object)
    requires BytesKept(data, out, f.offset, t.offset) && Pair(data, f, t)
    requires Describes(data, o) && 30 <= o.offset && o != f && o != t && Separate(o, f) && Separate(o, t)
    ensures Arrived(out, o, t.offset)
  {
    hide At;
    UntouchedObject(data, out, f, t, o);
    CopiedHead(data, o.offset, out, Moved(o.offset, t.offset), o.size);
  }

  lemma FilePropertiesArrived(data: Bytes, out: Bytes, f: Object, t: Object)
    requires BytesKept(data, out, f.offset, t.offset) && Pair(data, f, t) && Describes(data, f)
    ensures Arrived(out, f, t.offset)
  {
    hide At;
    KeptRange(data, out, f.offset, t.offset, f.offset, 40);
    CopiedHead(data, f.offset, out, Moved(f.offset, t.offset), 40);
  }

  lemma TargetArrived(data: Bytes, out: Bytes, f: Object, t: Object)
    requires BytesKept(data, out, f.offset, t.offset) && Pair(data, f, t) && Describes(data, t)
    requires At(out, t.offset + 16, 8) == t.size + EXTENSION
    ensures Arrived(out, t, t.offset)
  {
    hide At;
    KeptRange(data, out, f.offset, t.offset, t.offset, 16);
    CopiedGuid(data, t.offset, out, t.offset, 16, 0);
  }

  // ----- what the scan finds --------------------------------------------------------------------

  /** An object and what the loop body makes of it. */
  datatype Seen = Seen(offset: nat, verdict: Verdict)

  function Look(data: Bytes, objects: seq<Object>): (seen: seq<Seen>)
    requires AllRoomy(data, objects)
    ensures |seen| == |objects|
  {
    if objects == [] then []
    else [Seen(objects[0].offset, Inspect(data, objects[0].offset))] + Look(data, objects[1..])
  }

  lemma {:induction false} LookAt(data: Bytes, objects: seq<Object>, i: nat)
    requires AllRoomy(data, objects) && i < |objects|
    ensures RoomyObject(data, objects[i])
    ensures Look(data, objects)[i] == Seen(objects[i].offset, Inspect(data, objects[i].offset))
  {
    if i > 0 {
      LookAt(data, objects[1..], i - 1);
    }
  }

  /** The offset of the last object with the given verdict. */
  function LastWith(seen: seq<Seen>, v: Verdict): Option<nat> {
    if seen == [] then None
    else
      var r := LastWith(seen[1..], v);
      if r.Some? then r else if seen[0].verdict == v then Some(seen[0].offset) else None
  }

  lemma {:induction false} LastWithFinds(seen: seq<Seen>, v: Verdict)
    ensures LastWith(seen, v).None? <==> forall s :: s in seen ==> s.verdict != v
    ensures LastWith(seen, v).Some? ==>
      exists i :: && 0 <= i < |seen| && seen[i] == Seen(LastWith(seen, v).value, v)
                  && forall j :: i < j < |seen| ==> seen[j].verdict != v
  {
    if seen == [] {
    } else {
      var rest := seen[1..];
      LastWithFinds(rest, v);
      if LastWith(rest, v).Some? {
        var i :| && 0 <= i < |rest| && rest[i] == Seen(LastWith(rest, v).value, v)
                 && forall j :: i < j < |rest| ==> rest[j].verdict != v;
        assert seen[i + 1] == rest[i];
        assert forall j :: i + 1 < j < |seen| ==> seen[j] == rest[j - 1];
      }
    }
  }

  /** What the loop carries out of a header whose objects are all large enough. */
  function Fold(seen: seq<Seen>, f: Option<nat>, t: Option<nat>): Scanned {
    if seen == [] then ScanDone(f, t)
    else if seen[0].verdict.AlreadyExtensible? then ScanUnchanged
    else Fold(seen[1..],
              if seen[0].verdict.FileProperties? then Some(seen[0].offset) else f,
              if seen[0].verdict.EligibleStream? then Some(seen[0].offset) else t)
  }

  function Or(a: Option<nat>, b: Option<nat>): Option<nat> {
    if a.Some? then a else b
  }

  lemma {:induction false} FoldFindsLast(seen: seq<Seen>, f: Option<nat>, t: Option<nat>)
    ensures Fold(seen, f, t) ==
      if LastWith(seen, AlreadyExtensible).Some? then ScanUnchanged
      else ScanDone(Or(LastWith(seen, FileProperties), f), Or(LastWith(seen, EligibleStream), t))
    decreases |seen|
  {
    if seen == [] {
    } else {
      FoldFindsLast(seen[1..],
                    if seen[0].verdict.FileProperties? then Some(seen[0].offset) else f,
                    if seen[0].verdict.EligibleStream? then Some(seen[0].offset) else t);
    }
  }

  lemma RoomyIsNotBroken(data: Bytes, position: nat, size: nat)
    requires 24 <= size && InBounds(data, position, size) && Roomy(data, position, size)
    ensures !Inspect(data, position).Broken?
  {
  }

  /** One turn of the loop on an object that does not fail. */
  lemma ScanTurn(data: Bytes, position: nat, header: nat, f: Option<nat>, t: Option<nat>, size: nat, v: Verdict)
    requires position < header && InBounds(data, position, 24)
    requires size == At(data, position + 16, 8) && 0 < size && position + size <= header
    requires v == Inspect(data, position) && !v.Broken?
    ensures v.AlreadyExtensible? ==> Scan(data, position, header, f, t) == ScanUnchanged
    ensures !v.AlreadyExtensible? ==>
      Scan(data, position, header, f, t) ==
      Scan(data, position + size, header,
           if v.FileProperties? then Some(position) else f,
           if v.EligibleStream? then Some(position) else t)
  {
  }

  lemma ScanBegins(data: Bytes, o: Object, header: nat, f: Option<nat>, t: Option<nat>, v: Verdict)
    requires header <= |data| && o.offset + o.size <= header
    requires 24 <= o.size && o.size == At(data, o.offset + 16, 8)
    requires Roomy(data, o.offset, o.size) && v == Inspect(data, o.offset)
    ensures v.AlreadyExtensible? ==> Scan(data, o.offset, header, f, t) == ScanUnchanged
    ensures !v.AlreadyExtensible? ==>
      Scan(data, o.offset, header, f, t) ==
      Scan(data, o.offset + o.size, header,
           if v.FileProperties? then Some(o.offset) else f,
           if v.EligibleStream? then Some(o.offset) else t)
  {
    RoomyIsNotBroken(data, o.offset, o.size);
    ScanTurn(data, o.offset, header, f, t, o.size, v);
  }

  /** On a well-formed header the loop ends, having looked at exactly the objects of the walk. */
  lemma {:induction false} ScanIsFold(data: Bytes, position: nat, header: nat, objects: seq<Object>,
                                      f: Option<nat>, t: Option<nat>)
    requires header <= |data| && Walk(data, position, header) == Some(objects)
    requires AllRoomy(data, objects)
    ensures Scan(data, position, header, f, t) == Fold(Look(data, objects), f, t)
    decreases |objects|
  {
    hide At, Inspect, Roomy, Walk;
    WalkEnds(data, position, header);
    if position < header {
      WalkUnfold(data, position, header);
      var o := objects[0];
      WalkEnds(data, position + o.size, header);
      assert o in objects;
      var v := Inspect(data, position);
      ScanBegins(data, o, header, f, t, v);
      var seen := Look(data, objects);
      assert seen[1..] == Look(data, objects[1..]);
      if v != AlreadyExtensible {
        ScanIsFold(data, position + o.size, header, objects[1..],
                   if v.FileProperties? then Some(position) else f,
                   if v.EligibleStream? then Some(position) else t);
      }
    }
  }

  // ----- main results ---------------------------------------------------------------------------

  function Objects(data: Bytes): seq<Object>
    requires WellFormed(data)
  {
    Header(data).value
  }

  lemma HeaderFold(data: Bytes, header: nat, objects: seq<Object>)
    requires InBounds(data, 16, 8) && At(data, 16, 8) == header && 30 <= header <= |data|
    requires Walk(data, 30, header) == Some(objects) && AllRoomy(data, objects)
    ensures Header(data) == Some(objects)
  {
  }

  function Find(data: Bytes, v: Verdict): Option<nat>
    requires WellFormed(data)
  {
    LastWith(Look(data, Objects(data)), v)
  }

  /** What a well-formed file leads to: never a hang, and each outcome exactly when it is due. */
  lemma WellFormedOutcome(data: Bytes)
    requires WellFormed(data)
    ensures !Rewrite(data).Hangs?
    ensures Rewrite(data) == Unchanged <==> Find(data, AlreadyExtensible).Some?
    ensures Find(data, AlreadyExtensible).None? ==>
      && ScanFile(data) == ScanDone(Find(data, FileProperties), Find(data, EligibleStream))
      && (Find(data, FileProperties).None? ==> Rewrite(data) == Refused(FilePropertiesNotFound))
      && (Find(data, FileProperties).Some? && Find(data, EligibleStream).None? ==>
            Rewrite(data) == Refused(EligibleStreamNotFound))
  {
    hide At, Look, LastWith, Walk, Inspect;
    var header := At(data, 16, 8);
    var seen := Look(data, Objects(data));
    ScanIsFold(data, 30, header, Objects(data), None, None);
    FoldFindsLast(seen, None, None);
    ScanTargetInBounds(data, 30, header, None, None);
  }

  /** The size fields of the file and of the header have room for 22 more bytes. */
  predicate SizesFit(data: Bytes, fp: nat) {
    && InBounds(data, 16, 8) && At(data, 16, 8) + EXTENSION < U64
    && InBounds(data, fp + 40, 8) && At(data, fp + 40, 8) + EXTENSION < U64
  }

  /**
   * A well-formed file is rewritten exactly when no stream is extensible already, the file properties and an
   * eligible stream are there, and the two size fields have room.
   */
  lemma RewrittenExactlyWhen(data: Bytes)
    ensures WellFormed(data) ==>
      (Rewrite(data).Rewritten? <==>
        && Find(data, AlreadyExtensible).None?
        && Find(data, FileProperties).Some? && Find(data, EligibleStream).Some?
        && SizesFit(data, Find(data, FileProperties).value))
  {
    if WellFormed(data) {
      hide At, Find, Patch;
      WellFormedOutcome(data);
      if Find(data, FileProperties).Some? && Find(data, EligibleStream).Some? {
        var f, t := PatchedObjects(data);
        ScanTargetInBounds(data, 30, At(data, 16, 8), None, None);
      }
    }
  }

  /** An object found by its verdict is one of the header's objects. */
  lemma Found(data: Bytes, v: Verdict) returns (o: Object)
    requires WellFormed(data) && Find(data, v).Some?
    ensures o in Objects(data) && o.offset == Find(data, v).value
    ensures Describes(data, o) && 30 <= o.offset && o.offset + o.size <= At(data, 16, 8)
    ensures Inspect(data, o.offset) == v && Roomy(data, o.offset, o.size)
  {
    var objects := Objects(data);
    var seen := Look(data, objects);
    LastWithFinds(seen, v);
    var i :| 0 <= i < |seen| && seen[i] == Seen(Find(data, v).value, v);
    LookAt(data, objects, i);
    o := objects[i];
    AllRoomyMember(data, objects, o);
    WalkMember(data, 30, At(data, 16, 8), o);
  }

  lemma FilePropertiesRoom(data: Bytes, o: Object)
    requires Describes(data, o) && Roomy(data, o.offset, o.size) && Inspect(data, o.offset) == FileProperties
    ensures o.guid == FILE_PROPERTIES && 48 <= o.size
  {
  }

  lemma EligibleRoom(data: Bytes, o: Object)
    requires Describes(data, o) && Roomy(data, o.offset, o.size) && Inspect(data, o.offset) == EligibleStream
    ensures o.guid == STREAM_PROPERTIES && 96 <= o.size
    ensures GuidAt(data, o.offset + 24) == AUDIO_MEDIA
    ensures At(data, o.offset + 64, 4) == 18
  {
  }

  lemma GuidsDiffer()
    ensures FILE_PROPERTIES != STREAM_PROPERTIES
  {
  }

  /** The file properties object and the target, as the loop leaves them. */
  lemma PatchedObjects(data: Bytes) returns (f: Object, t: Object)
    requires WellFormed(data) && Find(data, FileProperties).Some? && Find(data, EligibleStream).Some?
    ensures Find(data, FileProperties) == Some(f.offset) && Find(data, EligibleStream) == Some(t.offset)
    ensures f in Objects(data) && t in Objects(data)
    ensures Pair(data, f, t) && Describes(data, f) && Describes(data, t)
    ensures f.guid == FILE_PROPERTIES && t.guid == STREAM_PROPERTIES
    ensures GuidAt(data, t.offset + 24) == AUDIO_MEDIA && At(data, t.offset + 64, 4) == 18
    ensures t.offset + t.size <= At(data, 16, 8)
  {
    f := Found(data, FileProperties);
    t := Found(data, EligibleStream);
    FilePropertiesRoom(data, f);
    EligibleRoom(data, t);
    GuidsDiffer();
    WalkSeparates(data, 30, At(data, 16, 8), f, t);
  }

  lemma PatchCheckedRelates(data: Bytes, out: Bytes, f: Object, t: Object)
    requires InBounds(data, 16, 8) && Pair(data, f, t)
    requires PatchChecked(data, f.offset, t.offset) == Rewritten(out)
    ensures Relates(data, out, f.offset, t.offset)
  {
    hide At;
    PatchRelates(data, f.offset, t.offset);
  }

  /** A finished patch: input, output, the objects of the input header, and the two patched ones. */
  datatype Job = Job(data: Bytes, out: Bytes, header: nat, objects: seq<Object>, f: Object, t: Object)

  ghost predicate Proper(j: Job) {
    && Relates(j.data, j.out, j.f.offset, j.t.offset) && Pair(j.data, j.f, j.t)
    && 30 <= j.header <= |j.data| && At(j.data, 16, 8) == j.header
    && Walk(j.data, 30, j.header) == Some(j.objects) && AllRoomy(j.data, j.objects)
    && j.f in j.objects && j.t in j.objects
    && j.f.guid == FILE_PROPERTIES && j.t.guid == STREAM_PROPERTIES
    && GuidAt(j.data, j.t.offset + 24) == AUDIO_MEDIA && At(j.data, j.t.offset + 64, 4) == 18
  }

  /** Every object of the header arrives in the output. */
  lemma ObjectArrives(j: Job, o: Object)
    requires Proper(j) && o in j.objects
    ensures Arrived(j.out, o, j.t.offset)
  {
    hide At;
    WalkMember(j.data, 30, j.header, o);
    if o == j.f {
      FilePropertiesArrived(j.data, j.out, j.f, j.t);
    } else if o == j.t {
      TargetArrived(j.data, j.out, j.f, j.t);
    } else {
      WalkSeparates(j.data, 30, j.header, o, j.f);
      WalkSeparates(j.data, 30, j.header, o, j.t);
      OtherArrived(j.data, j.out, j.f, j.t, o);
    }
  }

  lemma {:induction false} ObjectsArrive(j: Job, objects: seq<Object>)
    requires Proper(j) && forall o :: o in objects ==> o in j.objects
    ensures AllArrived(j.out, objects, j.t.offset)
    decreases |objects|
  {
    hide At;
    if objects != [] {
      ObjectArrives(j, objects[0]);
      ObjectsArrive(j, objects[1..]);
    }
  }

  lemma OutputWalk(j: Job)
    requires Proper(j)
    ensures Walk(j.out, 30, j.header + EXTENSION) == Some(MoveAll(j.objects, j.t.offset))
  {
    hide At;
    ObjectsArrive(j, j.objects);
    WalkMember(j.data, 30, j.header, j.t);
    WholeWalkMoved(j.data, j.out, j.t.offset, j.header, j.objects);
  }

  lemma FilePropertiesRoomy(data: Bytes, o: Object)
    requires Describes(data, o) && o.guid == FILE_PROPERTIES && 48 <= o.size
    ensures Roomy(data, o.offset, o.size)
  {
    GuidsDiffer();
  }

  lemma LargeRoomy(data: Bytes, o: Object)
    requires Describes(data, o) && 104 <= o.size
    ensures Roomy(data, o.offset, o.size)
  {
  }

  lemma OtherRoomy(data: Bytes, out: Bytes, f: Object, t: Object, o: Object)
    requires BytesKept(data, out, f.offset, t.offset) && Pair(data, f, t)
    requires Describes(data, o) && 30 <= o.offset && o != f && o != t && Separate(o, f) && Separate(o, t)
    requires Roomy(data, o.offset, o.size) && Describes(out, MoveObject(o, t.offset)) && o.offset != t.offset
    ensures Roomy(out, Moved(o.offset, t.offset), o.size)
  {
    UntouchedObject(data, out, f, t, o);
    CopiedObject(data, o.offset, out, Moved(o.offset, t.offset), o.size);
  }

  /** Every object of the output is again large enough for the fields read from it. */
  lemma MovedIsRoomy(j: Job, o: Object)
    requires Proper(j) && o in j.objects
    ensures RoomyObject(j.out, MoveObject(o, j.t.offset))
  {
    hide At;
    ObjectArrives(j, o);
    WalkMember(j.data, 30, j.header, o);
    AllRoomyMember(j.data, j.objects, o);
    if o == j.f {
      FilePropertiesRoomy(j.out, MoveObject(o, j.t.offset));
    } else if o == j.t {
      LargeRoomy(j.out, MoveObject(o, j.t.offset));
    } else {
      WalkSeparates(j.data, 30, j.header, o, j.f);
      WalkSeparates(j.data, 30, j.header, o, j.t);
      OtherRoomy(j.data, j.out, j.f, j.t, o);
    }
  }

  lemma {:induction false} OutputIsRoomy(j: Job, objects: seq<Object>)
    requires Proper(j) && forall o :: o in objects ==> o in j.objects
    ensures AllRoomy(j.out, MoveAll(objects, j.t.offset))
    decreases |objects|
  {
    hide At;
    if objects != [] {
      MovedIsRoomy(j, objects[0]);
      OutputIsRoomy(j, objects[1..]);
      assert MoveAll(objects, j.t.offset)[1..] == MoveAll(objects[1..], j.t.offset);
    }
  }

  lemma OutputHeader(j: Job)
    requires Proper(j)
    ensures Header(j.out) == Some(MoveAll(j.objects, j.t.offset))
  {
    hide At;
    OutputWalk(j);
    OutputIsRoomy(j, j.objects);
    HeaderFold(j.out, j.header + EXTENSION, MoveAll(j.objects, j.t.offset));
  }

  /** The patch a call has made. */
  lemma Rewriting(data: Bytes, out: Bytes) returns (j: Job)
    requires WellFormed(data)
    requires Rewrite(data) == Rewritten(out)
    ensures Proper(j) && j.data == data && j.out == out && j.header == At(data, 16, 8) && j.objects == Objects(data)
    ensures Find(data, FileProperties) == Some(j.f.offset) && Find(data, EligibleStream) == Some(j.t.offset)
  {
    hide At;
    WellFormedOutcome(data);
    var f, t := PatchedObjects(data);
    ScanTargetInBounds(data, 30, At(data, 16, 8), None, None);
    PatchCheckedRelates(data, out, f, t);
    j := Job(data, out, At(data, 16, 8), Objects(data), f, t);
  }

  /**
   * A rewritten well-formed file is well-formed again. Its walk visits the same objects in the same order with
   * the same GUIDs and sizes, only the last eligible stream is 22 bytes larger; the header and
   * file-size fields grew by 22; every other byte is the input byte, shifted after the splice.
   */
  lemma RewriteKeepsObjects(data: Bytes)
    ensures WellFormed(data) && Rewrite(data).Rewritten? ==>
      var fp, tp, out := Find(data, FileProperties), Find(data, EligibleStream), Rewrite(data).data;
      && fp.Some? && tp.Some?
      && Header(out) == Some(MoveAll(Objects(data), tp.value))
      && Grown(data, out, fp.value, tp.value)
  {
    if WellFormed(data) && Rewrite(data).Rewritten? {
      hide At;
      var j := Rewriting(data, Rewrite(data).data);
      OutputHeader(j);
    }
  }

  /** The size fields grew by 22 and all other bytes are the old ones. */
  ghost predicate Grown(data: Bytes, out: Bytes, fp: nat, tp: nat) {
    && InBounds(data, 16, 8) && InBounds(out, 16, 8)
    && At(out, 16, 8) == At(data, 16, 8) + EXTENSION
    && InBounds(data, fp + 40, 8) && InBounds(out, Moved(fp + 40, tp), 8)
    && At(out, Moved(fp + 40, tp), 8) == At(data, fp + 40, 8) + EXTENSION
    && BytesKept(data, out, fp, tp)
  }

  lemma ExtensibleAt(data: Bytes, position: nat)
    requires InBounds(data, position, 104)
    requires GuidAt(data, position) == STREAM_PROPERTIES
    requires GuidAt(data, position + 24) == AUDIO_MEDIA
    requires At(data, position + 64, 4) == 40 && At(data, position + 78, 2) == 0xfffe && At(data, position + 102, 2) == 1
    ensures Inspect(data, position) == AlreadyExtensible
  {
    GuidsDiffer();
  }

  lemma TargetGuids(j: Job)
    requires Proper(j)
    ensures InBounds(j.out, j.t.offset, 118)
    ensures GuidAt(j.out, j.t.offset) == GuidAt(j.data, j.t.offset)
    ensures GuidAt(j.out, j.t.offset + 24) == GuidAt(j.data, j.t.offset + 24)
  {
    hide At;
    var tp := j.t.offset;
    KeptRange(j.data, j.out, j.f.offset, tp, tp, 16);
    KeptRange(j.data, j.out, j.f.offset, tp, tp + 24, 16);
    CopiedGuid(j.data, tp, j.out, tp, 16, 0);
    CopiedGuid(j.data, tp + 24, j.out, tp + 24, 16, 0);
  }

  /** What a second call reads at the rewritten stream. */
  lemma TargetIsExtensible(j: Job)
    requires Proper(j)
    ensures InBounds(j.out, j.t.offset, 24)
    ensures Inspect(j.out, j.t.offset) == AlreadyExtensible
  {
    hide At;
    TargetGuids(j);
    WalkMember(j.data, 30, j.header, j.t);
    ExtensibleAt(j.out, j.t.offset);
  }

  lemma TargetIsFound(j: Job)
    requires Proper(j)
    ensures WellFormed(j.out) && Find(j.out, AlreadyExtensible).Some?
  {
    hide At;
    OutputHeader(j);
    TargetIsExtensible(j);
    var moved := Objects(j.out);
    var i :| 0 <= i < |j.objects| && j.objects[i] == j.t;
    MoveAllAt(j.objects, j.t.offset, i);
    LookAt(j.out, moved, i);
    LastWithFinds(Look(j.out, moved), AlreadyExtensible);
  }

  /** Rewriting a rewritten file changes nothing. */
  lemma RewriteIsIdempotent(data: Bytes)
    ensures WellFormed(data) && Rewrite(data).Rewritten? ==> Rewrite(Rewrite(data).data) == Unchanged
  {
    if WellFormed(data) && Rewrite(data).Rewritten? {
      hide At;
      var j := Rewriting(data, Rewrite(data).data);
      TargetIsFound(j);
      WellFormedOutcome(j.out);
    }
  }
}

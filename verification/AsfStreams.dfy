/** The ASF patcher in terms of what lies in the file: which streams it rewrites, to what, and what its errors mean. */
module AsfStreams {
  import opened Asf
  import opened LittleEndian
  import opened Options

  // ----- the GUIDs as stored --------------------------------------------------------------------------

  const FILE_PROPERTIES_BYTES: Bytes := [
    0xa1, 0xdc, 0xab, 0x8c, 0x47, 0xa9, 0xcf, 0x11, 0x8e, 0xe4, 0x00, 0xc0, 0x0c, 0x20, 0x53, 0x65]
  const STREAM_PROPERTIES_BYTES: Bytes := [
    0x91, 0x07, 0xdc, 0xb7, 0xb7, 0xa9, 0xcf, 0x11, 0x8e, 0xe6, 0x00, 0xc0, 0x0c, 0x20, 0x53, 0x65]
  const AUDIO_MEDIA_BYTES: Bytes := [
    0x40, 0x9e, 0x69, 0xf8, 0x4d, 0x5b, 0xcf, 0x11, 0xa8, 0xfd, 0x00, 0x80, 0x5f, 0x5c, 0x44, 0x2b]

  function Stored(guid: Guid): Bytes {
    Encode(guid.low, 8) + Encode(guid.high, 8)
  }

  lemma FilePropertiesStored()
    ensures Stored(FILE_PROPERTIES) == FILE_PROPERTIES_BYTES
  {
    hide Encode;
    EightBytes(0xa1, 0xdc, 0xab, 0x8c, 0x47, 0xa9, 0xcf, 0x11);
    EightBytes(0x8e, 0xe4, 0x00, 0xc0, 0x0c, 0x20, 0x53, 0x65);
  }

  lemma StreamPropertiesStored()
    ensures Stored(STREAM_PROPERTIES) == STREAM_PROPERTIES_BYTES
  {
    hide Encode;
    EightBytes(0x91, 0x07, 0xdc, 0xb7, 0xb7, 0xa9, 0xcf, 0x11);
    EightBytes(0x8e, 0xe6, 0x00, 0xc0, 0x0c, 0x20, 0x53, 0x65);
  }

  lemma AudioMediaStored()
    ensures Stored(AUDIO_MEDIA) == AUDIO_MEDIA_BYTES
  {
    hide Encode;
    EightBytes(0x40, 0x9e, 0x69, 0xf8, 0x4d, 0x5b, 0xcf, 0x11);
    EightBytes(0xa8, 0xfd, 0x00, 0x80, 0x5f, 0x5c, 0x44, 0x2b);
  }

  lemma StoredGuid(data: Bytes, offset: nat, guid: Guid)
    requires InBounds(data, offset, 16) && guid.low < U64 && guid.high < U64
    ensures GuidAt(data, offset) == guid <==> data[offset..offset + 16] == Stored(guid)
  {
    hide Encode, Decode;
    var low, high := data[offset..offset + 8], data[offset + 8..offset + 16];
    assert data[offset..offset + 16] == low + high;
    EncodeDecode(low);
    EncodeDecode(high);
    Capacities();
    DecodeEncode(guid.low, 8);
    DecodeEncode(guid.high, 8);
    var stored := Stored(guid);
    assert stored[..8] == Encode(guid.low, 8) && stored[8..] == Encode(guid.high, 8);
    assert (low + high)[..8] == low && (low + high)[8..] == high;
  }

  /** The three GUIDs the patcher looks for, as the bytes in the file. */
  lemma GuidsByBytes(data: Bytes, offset: nat)
    requires InBounds(data, offset, 16)
    ensures GuidAt(data, offset) == FILE_PROPERTIES <==> data[offset..offset + 16] == FILE_PROPERTIES_BYTES
    ensures GuidAt(data, offset) == STREAM_PROPERTIES <==> data[offset..offset + 16] == STREAM_PROPERTIES_BYTES
    ensures GuidAt(data, offset) == AUDIO_MEDIA <==> data[offset..offset + 16] == AUDIO_MEDIA_BYTES
  {
    FilePropertiesStored();
    StreamPropertiesStored();
    AudioMediaStored();
    hide Stored, At;
    StoredGuid(data, offset, FILE_PROPERTIES);
    StoredGuid(data, offset, STREAM_PROPERTIES);
    StoredGuid(data, offset, AUDIO_MEDIA);
  }

  // ----- streams, by their fields ---------------------------------------------------------------------

  predicate IsFileProperties(o: Object) {
    o.guid == FILE_PROPERTIES
  }

  predicate IsAudio(data: Bytes, o: Object) {
    && InBounds(data, o.offset, o.size) && 40 <= o.size
    && o.guid == STREAM_PROPERTIES && GuidAt(data, o.offset + 24) == AUDIO_MEDIA
  }

  /** An audio stream that is WAVE_FORMAT_EXTENSIBLE with a PCM sub-format already. */
  predicate Extensible(data: Bytes, o: Object) {
    && IsAudio(data, o) && 104 <= o.size
    && At(data, o.offset + 64, 4) >= 40
    && At(data, o.offset + 78, 2) == 0xfffe
    && At(data, o.offset + 102, 2) == 1
  }

  /** An audio stream in plain PCM with more than two channels and more than 16 bits. */
  predicate Eligible(data: Bytes, o: Object) {
    && IsAudio(data, o) && 96 <= o.size
    && At(data, o.offset + 64, 4) == 18
    && At(data, o.offset + 78, 2) == 1
    && At(data, o.offset + 80, 2) > 2
    && At(data, o.offset + 92, 2) > 16
  }

  lemma VerdictOf(data: Bytes, o: Object)
    requires Describes(data, o) && Roomy(data, o.offset, o.size)
    ensures Inspect(data, o.offset) == FileProperties <==> IsFileProperties(o)
    ensures Inspect(data, o.offset) == AlreadyExtensible <==> Extensible(data, o)
    ensures Inspect(data, o.offset) == EligibleStream <==> Eligible(data, o)
  {
    hide At;
    GuidsDiffer();
  }

  /** The last object of the header with a property. */
  ghost predicate Last(os: seq<Object>, i: int, p: Object -> bool) {
    && 0 <= i < |os| && p(os[i])
    && forall j :: i < j < |os| ==> !p(os[j])
  }

  function FileProps(): Object -> bool {
    o => IsFileProperties(o)
  }

  function Eligibles(data: Bytes): Object -> bool {
    o => Eligible(data, o)
  }

  lemma VerdictsOf(data: Bytes, o: Object)
    requires WellFormed(data) && o in Objects(data)
    ensures Describes(data, o) && Roomy(data, o.offset, o.size)
    ensures Inspect(data, o.offset) == FileProperties <==> IsFileProperties(o)
    ensures Inspect(data, o.offset) == AlreadyExtensible <==> Extensible(data, o)
    ensures Inspect(data, o.offset) == EligibleStream <==> Eligible(data, o)
  {
    WalkMember(data, 30, At(data, 16, 8), o);
    AllRoomyMember(data, Objects(data), o);
    VerdictOf(data, o);
  }

  lemma FindIsLast(data: Bytes, v: Verdict, p: Object -> bool)
    requires WellFormed(data)
    requires forall o :: o in Objects(data) ==> (p(o) <==> Describes(data, o) && Inspect(data, o.offset) == v)
    requires forall o :: o in Objects(data) ==> Describes(data, o)
    ensures Find(data, v).None? <==> forall o :: o in Objects(data) ==> !p(o)
    ensures Find(data, v).Some? ==> exists i :: Last(Objects(data), i, p) && Objects(data)[i].offset == Find(data, v).value
  {
    hide At, Inspect;
    var os := Objects(data);
    var seen := Look(data, os);
    forall i | 0 <= i < |os| ensures seen[i] == Seen(os[i].offset, Inspect(data, os[i].offset)) {
      LookAt(data, os, i);
    }
    LastWithFinds(seen, v);
    forall o | o in os && p(o) ensures Find(data, v).Some? {
      var i :| 0 <= i < |os| && os[i] == o;
      assert seen[i] in seen;
    }
    if Find(data, v).Some? {
      var i :| && 0 <= i < |seen| && seen[i] == Seen(Find(data, v).value, v)
               && forall j :: i < j < |seen| ==> seen[j].verdict != v;
      assert os[i] in os;
      assert Last(os, i, p);
    }
  }

  /** Which objects the scan finds, by their fields. */
  lemma Finds(data: Bytes)
    requires WellFormed(data)
    ensures Find(data, AlreadyExtensible).Some? <==> exists o :: o in Objects(data) && Extensible(data, o)
    ensures Find(data, FileProperties).None? <==> forall o :: o in Objects(data) ==> !IsFileProperties(o)
    ensures Find(data, FileProperties).Some? ==>
      exists i :: Last(Objects(data), i, FileProps()) && Objects(data)[i].offset == Find(data, FileProperties).value
    ensures Find(data, EligibleStream).None? <==> forall o :: o in Objects(data) ==> !Eligible(data, o)
    ensures Find(data, EligibleStream).Some? ==>
      exists i :: Last(Objects(data), i, Eligibles(data)) && Objects(data)[i].offset == Find(data, EligibleStream).value
  {
    forall o | o in Objects(data)
      ensures Describes(data, o)
      ensures Inspect(data, o.offset) == FileProperties <==> IsFileProperties(o)
      ensures Inspect(data, o.offset) == AlreadyExtensible <==> Extensible(data, o)
      ensures Inspect(data, o.offset) == EligibleStream <==> Eligible(data, o)
    {
      VerdictsOf(data, o);
    }
    hide At, Inspect, WellFormed, Describes, Find, IsFileProperties, Extensible, Eligible;
    FindIsLast(data, AlreadyExtensible, o => Extensible(data, o));
    FindIsLast(data, FileProperties, FileProps());
    FindIsLast(data, EligibleStream, Eligibles(data));
  }

  // ----- which files are rewritten --------------------------------------------------------------------

  /** The size fields have room for 22 more bytes. */
  predicate Grows(data: Bytes, f: Object) {
    && InBounds(data, 16, 8) && At(data, 16, 8) + 22 < U64
    && InBounds(data, f.offset + 40, 8) && At(data, f.offset + 40, 8) + 22 < U64
  }

  lemma LastIsUnique(os: seq<Object>, i: int, j: int, p: Object -> bool)
    requires Last(os, i, p) && Last(os, j, p)
    ensures i == j
  {
  }

  lemma {:induction false} SomeIsLast(os: seq<Object>, i: nat, p: Object -> bool) returns (last: int)
    requires i < |os| && p(os[i])
    ensures Last(os, last, p)
    decreases |os| - i
  {
    if j :| i < j < |os| && p(os[j]) {
      last := SomeIsLast(os, j, p);
    } else {
      last := i;
    }
  }

  /**
   * Every outcome of the call on a well-formed file, by the streams in it: some stream is extensible already; no
   * file properties; no eligible stream; no room in the size fields; or the file is rewritten.
   */
  lemma OutcomeByStreams(data: Bytes)
    ensures WellFormed(data) ==>
      var os, outcome := Objects(data), Rewrite(data);
      if exists o :: o in os && Extensible(data, o) then outcome == Unchanged
      else if forall o :: o in os ==> !IsFileProperties(o) then outcome == Refused(FilePropertiesNotFound)
      else if forall o :: o in os ==> !Eligible(data, o) then outcome == Refused(EligibleStreamNotFound)
      else if forall i :: Last(os, i, FileProps()) ==> !Grows(data, os[i]) then outcome == Refused(SizeOverflow)
      else outcome.Rewritten?
  {
    if WellFormed(data) {
      Finds(data);
      RewrittenExactlyWhen(data);
      WellFormedOutcome(data);
      if Find(data, AlreadyExtensible).None? && Find(data, FileProperties).Some? && Find(data, EligibleStream).Some? {
        OverflowOtherwise(data);
      }
      hide At, Rewrite, WellFormed, Find, Extensible, Eligible, IsFileProperties, ScanFile;
      var os := Objects(data);
      if Find(data, FileProperties).Some? {
        var f :| Last(os, f, FileProps()) && os[f].offset == Find(data, FileProperties).value;
        forall i | Last(os, i, FileProps()) ensures i == f {
          LastIsUnique(os, i, f, FileProps());
        }
        assert Grows(data, os[f]) <==> SizesFit(data, os[f].offset);
      }
    }
  }

  lemma OverflowOtherwise(data: Bytes)
    requires WellFormed(data) && Find(data, AlreadyExtensible).None?
    requires Find(data, FileProperties).Some? && Find(data, EligibleStream).Some?
    ensures Rewrite(data).Rewritten? || Rewrite(data) == Refused(SizeOverflow)
  {
    hide At, Find, Patch;
    WellFormedOutcome(data);
    var f, t := PatchedObjects(data);
    ScanTargetInBounds(data, 30, At(data, 16, 8), None, None);
  }

  // ----- what they are rewritten to -------------------------------------------------------------------

  /** The objects of one walk lie one after the other. */
  lemma {:induction false} WalkInOrder(data: Bytes, position: nat, header: nat, i: nat, j: nat)
    requires header <= |data| && Walk(data, position, header).Some? && i < j < |Walk(data, position, header).value|
    ensures var os := Walk(data, position, header).value; os[i].offset + os[i].size <= os[j].offset
    decreases j
  {
    hide At;
    WalkUnfold(data, position, header);
    var os := Walk(data, position, header).value;
    var next := position + os[0].size;
    assert os[1..][j - 1] == os[j];
    if i == 0 {
      WalkMember(data, next, header, os[j]);
    } else {
      WalkInOrder(data, next, header, i - 1, j - 1);
    }
  }

  /** The objects of the output: those of the input in order, object `t` 22 larger, the later ones 22 further on. */
  ghost predicate SameObjects(data: Bytes, out: Bytes, t: int)
    requires WellFormed(data)
  {
    var os := Objects(data);
    && WellFormed(out) && |Objects(out)| == |os| && 0 <= t < |os|
    && At(out, 16, 8) == At(data, 16, 8) + 22
    && forall i :: 0 <= i < |os| ==>
         Objects(out)[i] == Object(if i <= t then os[i].offset else os[i].offset + 22, os[i].guid,
                                   if i == t then os[i].size + 22 else os[i].size)
  }

  /** The stream at `tp`: the fields of a WAVEFORMATEXTENSIBLE with a PCM sub-format and the old sample width. */
  ghost predicate NowExtensible(data: Bytes, out: Bytes, tp: nat) {
    && InBounds(data, tp, 96) && InBounds(out, tp, 118)
    && At(out, tp + 64, 4) == 40 && At(out, tp + 78, 2) == 0xfffe && At(out, tp + 94, 2) == 22
    && At(out, tp + 96, 2) == At(data, tp + 92, 2)
    && out[tp + 98..tp + 102] == [0x3f, 0, 0, 0]
    && out[tp + 102..tp + 118] == PCM_BYTES
  }

  const PCM_BYTES: Bytes := [
    0x01, 0x00, 0x00, 0x00, 0x00, 0x00, 0x10, 0x00, 0x80, 0x00, 0x00, 0xaa, 0x00, 0x38, 0x9b, 0x71]

  /** All other bytes are those of the input, 22 further on from the end of the old format data. */
  ghost predicate OthersKept(data: Bytes, out: Bytes, fp: nat, tp: nat) {
    && |out| == |data| + 22
    && forall k :: 0 <= k < |data| && !InSizesOrFormat(k, fp, tp) ==>
         out[if k < tp + 96 then k else k + 22] == data[k]
  }

  /** In the sizes of header, file, stream and format data, or in the format tag and extension size. */
  predicate InSizesOrFormat(k: nat, fp: nat, tp: nat) {
    || 16 <= k < 24 || fp + 40 <= k < fp + 48 || tp + 16 <= k < tp + 24
    || tp + 64 <= k < tp + 68 || tp + 78 <= k < tp + 80 || tp + 94 <= k < tp + 96
  }

  /** The file size, wherever the file properties lie. */
  predicate FileSizeGrew(data: Bytes, out: Bytes, fp: nat, tp: nat) {
    var moved := if fp < tp then fp else fp + 22;
    && InBounds(data, fp + 40, 8) && InBounds(out, moved + 40, 8)
    && At(out, moved + 40, 8) == At(data, fp + 40, 8) + 22
  }

  /**
   * The target is the last eligible stream. In the output it is extensible, everything else is what and where it
   * was, and the sizes of the header, the file and the stream count the 22 bytes inserted.
   */
  lemma TargetByStreams(data: Bytes, f: int, t: int)
    ensures WellFormed(data) && Rewrite(data).Rewritten?
            && Last(Objects(data), f, FileProps()) && Last(Objects(data), t, Eligibles(data)) ==>
      var out, fp, tp := Rewrite(data).data, Objects(data)[f].offset, Objects(data)[t].offset;
      && SameObjects(data, out, t) && NowExtensible(data, out, tp)
      && OthersKept(data, out, fp, tp) && FileSizeGrew(data, out, fp, tp)
  {
    if WellFormed(data) && Rewrite(data).Rewritten?
       && Last(Objects(data), f, FileProps()) && Last(Objects(data), t, Eligibles(data)) {
      var out := Rewrite(data).data;
      var j := Rewriting(data, out);
      FoundObjects(data, j, f, t);
      OutputHeader(j);
      ObjectsMoved(data, out, j, t);
      InsertedBytes(data, out, j);
      KeptBytes(data, out, j);
    }
  }

  lemma FoundObjects(data: Bytes, j: Job, f: int, t: int)
    requires WellFormed(data)
    requires Find(data, FileProperties) == Some(j.f.offset) && Find(data, EligibleStream) == Some(j.t.offset)
    requires Last(Objects(data), f, FileProps()) && Last(Objects(data), t, Eligibles(data))
    ensures Objects(data)[f].offset == j.f.offset && Objects(data)[t].offset == j.t.offset
  {
    Finds(data);
    hide At, WellFormed, Find, Eligible, IsFileProperties, Extensible;
    var os := Objects(data);
    var f' :| Last(os, f', FileProps()) && os[f'].offset == j.f.offset;
    var t' :| Last(os, t', Eligibles(data)) && os[t'].offset == j.t.offset;
    LastIsUnique(os, f, f', FileProps());
    LastIsUnique(os, t, t', Eligibles(data));
  }

  lemma ObjectsMoved(data: Bytes, out: Bytes, j: Job, t: int)
    requires WellFormed(data) && Proper(j) && j.data == data && j.out == out
    requires j.header == At(data, 16, 8) && j.objects == Objects(data)
    requires Header(out) == Some(MoveAll(j.objects, j.t.offset))
    requires 0 <= t < |j.objects| && j.objects[t].offset == j.t.offset && 96 <= j.objects[t].size
    ensures SameObjects(data, out, t)
  {
    hide At;
    var os := j.objects;
    forall i | 0 <= i < |os|
      ensures Objects(out)[i] == Object(if i <= t then os[i].offset else os[i].offset + 22, os[i].guid,
                                        if i == t then os[i].size + 22 else os[i].size)
    {
      MoveAllAt(os, j.t.offset, i);
      WalkMember(data, 30, j.header, os[i]);
      if i < t {
        WalkInOrder(data, 30, j.header, i, t);
      } else if t < i {
        WalkInOrder(data, 30, j.header, t, i);
      }
    }
  }

  lemma PatchedOutput(data: Bytes, out: Bytes)
    requires WellFormed(data) && Rewrite(data) == Rewritten(out)
    ensures Find(data, FileProperties).Some? && Find(data, EligibleStream).Some?
    ensures var fp, tp := Find(data, FileProperties).value, Find(data, EligibleStream).value;
      && InBounds(data, 16, 8) && InBounds(data, fp + 40, 8) && InBounds(data, tp, 96)
      && out == Patch(data, fp, tp)
  {
    hide At, Patch, Find;
    WellFormedOutcome(data);
    var j := Rewriting(data, out);
    ScanTargetInBounds(data, 30, At(data, 16, 8), None, None);
  }

  lemma MaskBytes()
    ensures Encode(0x3f, 4) == [0x3f, 0, 0, 0]
  {
    assert Encode(0, 2) == [0, 0];
    assert Encode(0, 3) == [0] + Encode(0, 2);
  }

  lemma InsertedBytes(data: Bytes, out: Bytes, j: Job)
    requires WellFormed(data) && Rewrite(data) == Rewritten(out) && Proper(j) && j.data == data && j.out == out
    requires Find(data, FileProperties) == Some(j.f.offset) && Find(data, EligibleStream) == Some(j.t.offset)
    ensures NowExtensible(data, out, j.t.offset)
  {
    hide At, Encode, WriteFields;
    PatchedOutput(data, out);
    MaskBytes();
    var tp := j.t.offset;
    var e := Extension(At(data, tp + 92, 2));
    assert out[tp + 96..tp + 118] == e;
    assert out[tp + 98..tp + 102] == e[2..6] == Encode(0x3f, 4);
    assert out[tp + 102..tp + 118] == e[6..22] == PCM_SUBFORMAT;
  }

  lemma KeptBytes(data: Bytes, out: Bytes, j: Job)
    requires Proper(j) && j.data == data && j.out == out
    ensures OthersKept(data, out, j.f.offset, j.t.offset)
    ensures FileSizeGrew(data, out, j.f.offset, j.t.offset)
  {
    hide At;
    forall k | 0 <= k < |data| && !Patched(k, j.f.offset, j.t.offset)
      ensures out[if k < j.t.offset + 96 then k else k + 22] == data[k]
    {
      assert Moved(k, j.t.offset) == if k < j.t.offset + 96 then k else k + 22;
    }
  }

  // ----- what the errors mean -------------------------------------------------------------------------

  /** A field that is read of the object at `z`, and that the file is too short for. */
  predicate CutOff(data: Bytes, z: nat, field: nat) {
    || (field == z + 16 && |data| < field + 8)
    || (field == z + 64 && |data| < field + 4)
    || (field in {z + 78, z + 80, z + 92, z + 102} && |data| < field + 2)
  }

  ghost predicate Explained(data: Bytes, position: nat, header: nat, e: Error) {
    match e
    case Truncated(field) => exists z: nat :: z < header && Reaches(data, position, header, z) && CutOff(data, z, field)
    case InvalidObjectSize(z) =>
      z < header && Reaches(data, position, header, z) && InBounds(data, z + 16, 8) && z + At(data, z + 16, 8) > header
    case _ => false
  }

  lemma {:induction false} ScanErrorsExplained(
      data: Bytes, position: nat, header: nat, fp: Option<nat>, tp: Option<nat>)
    ensures var s := Scan(data, position, header, fp, tp);
      s.ScanRefused? ==> Explained(data, position, header, s.error)
    decreases if position < header then header - position else 0
  {
    hide At;
    var s := Scan(data, position, header, fp, tp);
    if s.ScanRefused? {
      assert Reaches(data, position, header, position);
      if InBounds(data, position + 16, 8) {
        var size := At(data, position + 16, 8);
        var v := Inspect(data, position);
        if v.Broken? {
          BrokenIsCutOff(data, position);
        } else if position + size <= header {
          var next := position + size;
          ScanErrorsExplained(data, next, header, if v.FileProperties? then Some(position) else fp,
                              if v.EligibleStream? then Some(position) else tp);
          hide Inspect;
          forall z | Reaches(data, next, header, z) ensures Reaches(data, position, header, z) {
          }
        }
      } else {
        assert CutOff(data, position, position + 16);
      }
    }
  }

  lemma BrokenIsCutOff(data: Bytes, z: nat)
    requires InBounds(data, z, 24) && Inspect(data, z).Broken?
    ensures Inspect(data, z).error.Truncated? && CutOff(data, z, Inspect(data, z).error.offset)
  {
  }

  /**
   * A refusal names a true fault: a file too short for its first fields, a header size out of range, or an object
   * that the loop comes to and that claims more than the header holds, or lacks a field that is read from it.
   */
  lemma RefusalsAreTrue(data: Bytes)
    ensures |data| < 24 <==> Rewrite(data) == Refused(Truncated(16))
    ensures Rewrite(data) == Refused(InvalidHeaderSize) <==> |data| >= 24 && !(30 <= At(data, 16, 8) <= |data|)
    ensures |data| >= 24 && Rewrite(data).Refused? && Rewrite(data).error.InvalidObjectSize? ==>
      Explained(data, 30, At(data, 16, 8), Rewrite(data).error)
    ensures |data| >= 24 && ScanFile(data).ScanRefused? && 30 <= At(data, 16, 8) <= |data| ==>
      Rewrite(data) == Refused(ScanFile(data).error) && Explained(data, 30, At(data, 16, 8), Rewrite(data).error)
  {
    hide At, Scan, Explained, Patch;
    if |data| >= 24 {
      ScanErrorsExplained(data, 30, At(data, 16, 8), None, None);
      ScanTargetInBounds(data, 30, At(data, 16, 8), None, None);
      NotSixteen(data);
    }
  }

  /** A field of an object lies behind the first fields of the file. */
  lemma NotSixteen(data: Bytes)
    requires |data| >= 24
    ensures !Explained(data, 30, At(data, 16, 8), Truncated(16))
    ensures !Explained(data, 30, At(data, 16, 8), InvalidHeaderSize)
    ensures forall z | Reaches(data, 30, At(data, 16, 8), z) :: z >= 30
  {
    hide At;
    forall z | Reaches(data, 30, At(data, 16, 8), z) ensures z >= 30 {
      ReachesForward(data, 30, At(data, 16, 8), z);
    }
  }

  lemma {:induction false} ReachesForward(data: Bytes, position: nat, header: nat, z: nat)
    requires Reaches(data, position, header, z)
    ensures position <= z
    decreases if position < header then header - position else 0
  {
    hide At, Inspect;
    if position != z {
      assert Passes(data, position, header);
      ReachesForward(data, position + At(data, position + 16, 8), header, z);
    }
  }
}

/** The descriptor reader on files made of sections, and the bytes of LEB128 numbers. */
module WasmSections {
  import opened LittleEndian
  import opened Options
  import opened Wasm

  /** A section as a writer of the format sees it: custom ones have id 0 and a name. */
  datatype Section = Custom(name: Bytes, content: Bytes) | Numbered(id: Byte, body: Bytes)

  function Id(s: Section): Byte {
    if s.Custom? then 0 else s.id
  }

  function Content(s: Section): Bytes {
    if s.Custom? then Leb(|s.name|) + s.name + s.content else s.body
  }

  function Written(s: Section): Bytes {
    [Id(s)] + Leb(|Content(s)|) + Content(s)
  }

  /** Sizes fit in 32 bits, and id 0 is left to custom sections. */
  predicate Legal(s: Section) {
    && |Content(s)| < U32
    && match s
       case Custom(name, _) => |name| < U32
       case Numbered(id, _) => id != 0
  }

  /** "scryer.plugin-descriptor.v1" */
  predicate IsDescriptorName(name: Bytes) {
    |name| == 27 && forall i :: 0 <= i < 27 ==> name[i] == "scryer.plugin-descriptor.v1"[i] as int
  }

  lemma SectionNameSpelled(name: Bytes)
    ensures name == SECTION_NAME <==> IsDescriptorName(name)
  {
    assert forall i :: 0 <= i < 27 ==> SECTION_NAME[i] == "scryer.plugin-descriptor.v1"[i] as int;
  }

  /** What one section does to the reader, given the descriptor found before. */
  function Reads(s: Section, found: Option<Bytes>, isText: Bytes -> bool): Result<Option<Bytes>, ExtractError> {
    match s
    case Numbered(_, _) => Ok(found)
    case Custom(name, content) =>
      if !isText(name) then Err(NameNotText)
      else if !IsDescriptorName(name) then Ok(found)
      else if found.Some? then Err(DuplicateDescriptor)
      else Ok(Some(content))
  }

  lemma DescriptorOfSection(before: Bytes, s: Section, after: Bytes, isText: Bytes -> bool)
    requires Legal(s)
    ensures
      var at := before + [Id(s)] + Leb(|Content(s)|);
      var wasm := at + Content(s) + after;
      Descriptor(wasm, Id(s), |at|, |at + Content(s)|, isText) ==
        match s
        case Numbered(_, _) => Ok(None)
        case Custom(name, content) =>
          if !isText(name) then Err(NameNotText)
          else if name == SECTION_NAME then Ok(Some(content)) else Ok(None)
  {
    hide Leb, ReadLeb;
    if s.Custom? {
      var at := before + [Id(s)] + Leb(|Content(s)|);
      var wasm := at + Content(s) + after;
      ReaderInvertsWriter(at, |s.name|, s.name + s.content + after);
      assert wasm == at + Leb(|s.name|) + (s.name + s.content + after);
      var start := |at| + |Leb(|s.name|)|;
      assert wasm[start..start + |s.name|] == s.name;
      assert wasm[start + |s.name|..|at + Content(s)|] == s.content;
    }
  }

  /** The walk over one section, whatever lies before and after it. */
  lemma WalkSection(before: Bytes, s: Section, after: Bytes, found: Option<Bytes>, isText: Bytes -> bool)
    requires Legal(s)
    ensures
      var wasm := before + Written(s) + after;
      Walk(wasm, |before|, found, isText) ==
        match Reads(s, found, isText)
        case Ok(more) => Walk(wasm, |before + Written(s)|, more, isText)
        case Err(e) => Err(e)
  {
    hide Leb, ReadLeb, Descriptor, Content, Id, SECTION_NAME;
    var wasm := before + Written(s) + after;
    var at := before + [Id(s)] + Leb(|Content(s)|);
    assert wasm == at + Content(s) + after;
    ReaderInvertsWriter(before + [Id(s)], |Content(s)|, Content(s) + after);
    assert wasm == before + [Id(s)] + Leb(|Content(s)|) + (Content(s) + after);
    assert wasm[|before|] == Id(s);
    DescriptorOfSection(before, s, after, isText);
    if s.Custom? {
      SectionNameSpelled(s.name);
    }
  }

  function AllWritten(sections: seq<Section>): Bytes {
    if sections == [] then [] else Written(sections[0]) + AllWritten(sections[1..])
  }

  function ReadsAll(
      sections: seq<Section>, found: Option<Bytes>, isText: Bytes -> bool): Result<Option<Bytes>, ExtractError> {
    if sections == [] then Ok(found)
    else
      match Reads(sections[0], found, isText)
      case Err(e) => Err(e)
      case Ok(more) => ReadsAll(sections[1..], more, isText)
  }

  lemma {:induction false} WalkSections(
      before: Bytes, sections: seq<Section>, found: Option<Bytes>, isText: Bytes -> bool)
    requires forall i :: 0 <= i < |sections| ==> Legal(sections[i])
    ensures Walk(before + AllWritten(sections), |before|, found, isText) == ReadsAll(sections, found, isText)
    decreases |sections|
  {
    hide Walk, Written, Reads;
    if sections == [] {
      assert before + [] == before;
      WalkEnds(before, found, isText);
    } else {
      var rest := sections[1..];
      assert before + AllWritten(sections) == before + Written(sections[0]) + AllWritten(rest);
      WalkSection(before, sections[0], AllWritten(rest), found, isText);
      var r := Reads(sections[0], found, isText);
      if r.Ok? {
        WalkSections(before + Written(sections[0]), rest, r.value, isText);
      }
    }
  }

  predicate IsHeader(header: Bytes) {
    || header == [0x00, 0x61, 0x73, 0x6d, 0x01, 0x00, 0x00, 0x00]
    || header == [0x00, 0x61, 0x73, 0x6d, 0x0d, 0x00, 0x01, 0x00]
  }

  /** Anything but a core module or a component of version 1 is refused, and nothing else is refused as that. */
  lemma NotWasmExactlyWhen(wasm: Bytes, isText: Bytes -> bool)
    ensures Extract(wasm, isText) == Err(NotWasm) <==> !(|wasm| >= 8 && IsHeader(wasm[..8]))
  {
    hide Walk;
    NeverNotWasm(wasm, 8, None, isText);
    HeaderSpelled(wasm);
  }

  lemma HeaderSpelled(wasm: Bytes)
    ensures HasHeader(wasm) <==> |wasm| >= 8 && IsHeader(wasm[..8])
  {
    assert |wasm| >= 8 ==> (CORE_HEADER <= wasm <==> wasm[..8] == CORE_HEADER);
    assert |wasm| >= 8 ==> (COMPONENT_HEADER <= wasm <==> wasm[..8] == COMPONENT_HEADER);
  }

  lemma {:induction false} NeverNotWasm(wasm: Bytes, offset: nat, found: Option<Bytes>, isText: Bytes -> bool)
    ensures var w := Walk(wasm, offset, found, isText); w.Err? ==> w.error != NotWasm && w.error != NoDescriptor
    decreases if offset < |wasm| then |wasm| - offset else 0
  {
    hide ReadLeb;
    if offset < |wasm| && ReadLeb(wasm, offset + 1).Some? {
      var size := ReadLeb(wasm, offset + 1).value;
      var end := size.next + size.value;
      if end <= |wasm| {
        LebExtends(wasm, [], offset + 1);
        var d := Descriptor(wasm, wasm[offset], size.next, end, isText);
        if d.Ok? {
          NeverNotWasm(wasm, end, if d.value.Some? then d.value else found, isText);
        }
      }
    }
  }

  /** The reader on any file made of a header and sections: the one descriptor, or the first fault in file order. */
  lemma ExtractOfSections(header: Bytes, sections: seq<Section>, isText: Bytes -> bool)
    requires IsHeader(header) && forall i :: 0 <= i < |sections| ==> Legal(sections[i])
    ensures Extract(header + AllWritten(sections), isText) ==
      match ReadsAll(sections, None, isText)
      case Err(e) => Err(e)
      case Ok(None) => Err(NoDescriptor)
      case Ok(Some(content)) => Ok(content)
  {
    hide Walk, ReadsAll;
    WalkSections(header, sections, None, isText);
    var wasm := header + AllWritten(sections);
    assert wasm[..8] == header;
    HeaderSpelled(wasm);
  }

  /** A section that is no descriptor, appended to any file that is read to its end, changes nothing. */
  lemma OtherSectionsArePassedOver(wasm: Bytes, s: Section, isText: Bytes -> bool)
    requires Legal(s) && HasHeader(wasm) && Walk(wasm, 8, None, isText).Ok?
    requires s.Custom? ==> isText(s.name) && !IsDescriptorName(s.name)
    ensures Extract(wasm + Written(s), isText) == Extract(wasm, isText)
  {
    hide Walk, Written;
    HeaderSpelled(wasm);
    var found := Walk(wasm, 8, None, isText).value;
    WalkExtends(wasm, Written(s), 8, None, isText);
    WalkSection(wasm, s, [], found, isText);
    assert wasm + Written(s) + [] == wasm + Written(s);
    WalkEnds(wasm + Written(s), found, isText);
    assert (wasm + Written(s))[..8] == wasm[..8];
    HeaderSpelled(wasm + Written(s));
  }

  // ----- files that are cut off -----------------------------------------------------------------------

  /** A section that ends too early: without its size, or shorter than its size. */
  lemma CutOffSections(wasm: Bytes, id: Byte, size: nat, body: Bytes, isText: Bytes -> bool)
    requires HasHeader(wasm) && Walk(wasm, 8, None, isText).Ok? && size < U32
    ensures Extract(wasm + [id], isText) == Err(InvalidLeb)
    ensures |body| < size ==> Extract(wasm + [id] + Leb(size) + body, isText) == Err(SectionTooLong)
  {
    hide Leb, ReadLeb;
    var found := Walk(wasm, 8, None, isText).value;
    NoBytesNoNumber(wasm + [id]);
    CutOff(wasm, [id], found, isText);
    ReaderInvertsWriter(wasm + [id], size, body);
    var tail := [id] + Leb(size) + body;
    assert wasm + [id] + Leb(size) + body == wasm + tail;
    CutOff(wasm, tail, found, isText);
  }

  /** A custom section that is shorter than its name. */
  lemma CutOffName(wasm: Bytes, size: nat, body: Bytes, isText: Bytes -> bool)
    requires HasHeader(wasm) && Walk(wasm, 8, None, isText).Ok? && size < U32
    requires |body| < size && |Leb(size) + body| < U32
    ensures Extract(wasm + [0] + Leb(|Leb(size) + body|) + (Leb(size) + body), isText) == Err(NameTooLong)
  {
    hide Leb, ReadLeb;
    var found := Walk(wasm, 8, None, isText).value;
    var inner := Leb(size) + body;
    var named := [0] + Leb(|inner|) + inner;
    assert wasm + [0] + Leb(|inner|) + inner == wasm + named;
    ReaderInvertsWriter(wasm + [0], |inner|, inner);
    ReaderInvertsWriter(wasm + [0] + Leb(|inner|), size, body);
    assert wasm + [0] + Leb(|inner|) + Leb(size) + body == wasm + named;
    CutOff(wasm, named, found, isText);
    assert (wasm + named)[|wasm|] == 0;
  }

  lemma CutOff(wasm: Bytes, tail: Bytes, found: Option<Bytes>, isText: Bytes -> bool)
    requires HasHeader(wasm) && Walk(wasm, 8, None, isText) == Ok(found)
    ensures HasHeader(wasm + tail) && Walk(wasm + tail, 8, None, isText) == Walk(wasm + tail, |wasm|, found, isText)
  {
    hide Walk;
    HeaderSpelled(wasm);
    WalkExtends(wasm, tail, 8, None, isText);
    assert (wasm + tail)[..8] == wasm[..8];
    HeaderSpelled(wasm + tail);
  }

  lemma NoBytesNoNumber(data: Bytes)
    ensures ReadLeb(data, |data|) == None
  {
  }

  // ----- LEB128, byte by byte -------------------------------------------------------------------------

  /** The value of the bytes: their low seven bits, least significant first. */
  function Sevens(bytes: Bytes): nat {
    if bytes == [] then 0 else bytes[0] % 128 + 128 * Sevens(bytes[1..])
  }

  /** The top bit is set in every byte but the last. */
  predicate Terminated(bytes: Bytes) {
    bytes != [] && forall i :: 0 <= i < |bytes| ==> (bytes[i] >= 128 <==> i < |bytes| - 1)
  }

  /** The writer's bytes are terminated, carry the value, and there are no fewer that do. */
  lemma {:induction false} LebSpelled(v: nat)
    ensures Terminated(Leb(v)) && Sevens(Leb(v)) == v
    ensures |Leb(v)| > 1 ==> Leb(v)[|Leb(v)| - 1] != 0
  {
    if v >= 128 {
      LebSpelled(v / 128);
      assert Leb(v)[1..] == Leb(v / 128);
      forall i | 0 <= i < |Leb(v)| ensures Leb(v)[i] >= 128 <==> i < |Leb(v)| - 1 {
        assert i > 0 ==> Leb(v)[i] == Leb(v / 128)[i - 1];
      }
    }
  }

  /** The reader takes any terminated number of at most six bytes, and gives the value its low bits carry. */
  lemma {:induction false} ReadsTerminated(before: Bytes, bytes: Bytes, after: Bytes, value: nat, shift: nat)
    requires Terminated(bytes) && shift + 7 * |bytes| <= 42 && value < Pow2(shift)
    ensures ReadLebFrom(before + bytes + after, |before|, value, shift)
         == Some(Number(value + Sevens(bytes) * Pow2(shift), |before| + |bytes|))
    decreases |bytes|
  {
    hide Pow2, BitOr, ReadLebFrom;
    var data := before + bytes + after;
    var bits := bytes[0] % 128;
    assert data[|before|] == bytes[0];
    ReadStep(data, |before|, value, shift, bits);
    var rest := bytes[1..];
    if rest != [] {
      assert Terminated(rest) by {
        forall i | 0 <= i < |rest| ensures rest[i] >= 128 <==> i < |rest| - 1 {
          assert rest[i] == bytes[i + 1];
        }
      }
      assert data == before + [bytes[0]] + rest + after;
      ReadsTerminated(before + [bytes[0]], rest, after, value + bits * Pow2(shift), shift + 7);
      SevenBits(shift);
      SevensProduct(value, bits, Sevens(rest), Pow2(shift));
    } else {
      assert Sevens(bytes) == bits;
    }
  }

  lemma SevensProduct(value: nat, bits: nat, rest: nat, p: nat)
    ensures value + bits * p + rest * (128 * p) == value + (bits + 128 * rest) * p
  {
    assert rest * (128 * p) == 128 * rest * p;
  }

  /** Nothing else is read: six bytes with their top bits set, or fewer at the end of the data, are no number. */
  lemma {:induction false} UnterminatedIsInvalid(data: Bytes, offset: nat, value: nat, shift: nat)
    requires forall i :: offset <= i < |data| && 7 * (i - offset) + shift <= 35 ==> data[i] >= 128
    ensures ReadLebFrom(data, offset, value, shift) == None
    decreases if offset < |data| then |data| - offset else 0
  {
    hide Pow2, BitOr;
    if offset < |data| && shift <= 35 {
      UnterminatedIsInvalid(data, offset + 1, BitOr(value, data[offset] % 128 * Pow2(shift)), shift + 7);
    }
  }

  /** What the embedder refuses. */
  lemma EmbedRefusals(component: Bytes, payload: Bytes)
    ensures Embed(component, payload) == Err(NotAComponent) <==>
      !(|component| >= 8 && component[..8] == [0x00, 0x61, 0x73, 0x6d, 0x0d, 0x00, 0x01, 0x00])
    ensures Embed(component, payload) == Err(SectionTooLarge) ==> |payload| + 28 >= U32
    ensures Embed(component, payload).Ok? ==>
      |payload| + 28 < U32
      && Embed(component, payload).value == component + Written(Custom(SECTION_NAME, payload))
  {
    assert |component| >= 8 ==> (COMPONENT_HEADER <= component <==> component[..8] == COMPONENT_HEADER);
    assert |SECTION_NAME| == 27 && Leb(27) == [27];
    assert |SectionBody(payload)| == 28 + |payload|;
    if Embed(component, payload).Ok? {
      var body := SectionBody(payload);
      assert component + [0] + Leb(|body|) + body == component + ([0] + Leb(|body|) + body);
    }
  }
}

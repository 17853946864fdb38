/** The plugin-descriptor custom section: the xtask writer and the release script's reader. */
module Wasm {
  import opened LittleEndian
  import opened Options

  /** "\0asm" with version 1, core module and component. */
  const CORE_HEADER: Bytes := [0x00, 0x61, 0x73, 0x6d, 0x01, 0x00, 0x00, 0x00]
  const COMPONENT_HEADER: Bytes := [0x00, 0x61, 0x73, 0x6d, 0x0d, 0x00, 0x01, 0x00]

  /** "scryer.plugin-descriptor.v1" in ASCII. */
  const SECTION_NAME: Bytes := [
    0x73, 0x63, 0x72, 0x79, 0x65, 0x72, 0x2e, 0x70, 0x6c, 0x75, 0x67, 0x69, 0x6e, 0x2d,
    0x64, 0x65, 0x73, 0x63, 0x72, 0x69, 0x70, 0x74, 0x6f, 0x72, 0x2e, 0x76, 0x31]

  // ----- bits -----------------------------------------------------------------------------------------

  function Pow2(n: nat): nat {
    if n == 0 then 1 else 2 * Pow2(n - 1)
  }

  /** Bitwise or, bit by bit. */
  function BitOr(a: nat, b: nat): nat {
    if a == 0 && b == 0 then 0
    else 2 * BitOr(a / 2, b / 2) + if a % 2 == 1 || b % 2 == 1 then 1 else 0
  }

  lemma {:induction false} OrWithZero(b: nat)
    ensures BitOr(0, b) == b
  {
    if b > 0 {
      OrWithZero(b / 2);
    }
  }

  lemma SevenBits(shift: nat)
    ensures Pow2(shift + 7) == 128 * Pow2(shift)
  {
    assert Pow2(shift + 2) == 4 * Pow2(shift);
    assert Pow2(shift + 4) == 4 * Pow2(shift + 2);
    assert Pow2(shift + 6) == 4 * Pow2(shift + 4);
  }

  /** Or-ing bits in above all bits of a value adds them. */
  lemma {:induction false} OrAdds(a: nat, b: nat, shift: nat)
    requires a < Pow2(shift)
    ensures BitOr(a, b * Pow2(shift)) == a + b * Pow2(shift)
    decreases shift
  {
    if shift == 0 {
      OrWithZero(b);
    } else {
      var p := Pow2(shift - 1);
      assert b * Pow2(shift) == 2 * (b * p);
      OrAdds(a / 2, b, shift - 1);
    }
  }

  /** What the reader's loop keeps: the value stays below two to the `shift`, so or-ing the next bits in adds them. */
  lemma OrAddsSevenBits(value: nat, bits: nat, shift: nat)
    requires value < Pow2(shift) && bits < 128
    ensures BitOr(value, bits * Pow2(shift)) == value + bits * Pow2(shift) < Pow2(shift + 7)
  {
    OrAdds(value, bits, shift);
    SevenBits(shift);
    hide Pow2, BitOr;
    Below(value, bits, Pow2(shift));
  }

  lemma Below(value: nat, bits: nat, p: nat)
    requires value < p && bits < 128
    ensures value + bits * p < 128 * p
  {
    assert 0 <= (127 - bits) * p == 127 * p - bits * p;
  }

  lemma TopBit(byte: nat)
    requires byte < 128
    ensures BitOr(byte, 0x80) == byte + 128
  {
    SevenBits(0);
    OrAdds(byte, 1, 7);
  }

  // ----- LEB128, unsigned -----------------------------------------------------------------------------

  /** The shortest encoding of `v`, low seven bits first, every byte but the last with its top bit set. */
  function Leb(v: nat): (r: Bytes)
    ensures r != []
  {
    if v < 128 then [v] else [v % 128 + 128] + Leb(v / 128)
  }

  /** The writer: `value & 0x7f` and `value >>= 7` in a loop. */
  method WriteLeb(v: nat, output: Bytes) returns (r: Bytes)
    requires v < U32
    ensures r == output + Leb(v)
  {
    hide BitOr;
    var value := v;
    r := output;
    while true
      invariant r + Leb(value) == output + Leb(v)
      decreases value
    {
      var byte := value % 128;
      value := value / 128;
      if value != 0 {
        TopBit(byte);
        byte := BitOr(byte, 0x80);
      }
      ghost var before := r;
      r := r + [byte];
      if value == 0 {
        break;
      }
      assert r + Leb(value) == before + ([byte] + Leb(value));
    }
  }

  datatype Number = Number(value: nat, next: nat)

  /** The reader's loop: seven more bits, at `shift`, are or-ed into the value. */
  function ReadLebFrom(data: Bytes, offset: nat, value: nat, shift: nat): Option<Number>
    decreases if offset < |data| then |data| - offset else 0
  {
    if offset >= |data| || shift > 35 then None
    else
      var more := BitOr(value, data[offset] % 128 * Pow2(shift));
      if data[offset] < 128 then Some(Number(more, offset + 1))
      else ReadLebFrom(data, offset + 1, more, shift + 7)
  }

  function ReadLeb(data: Bytes, offset: nat): Option<Number> {
    ReadLebFrom(data, offset, 0, 0)
  }

  method ReadLebLoop(data: Bytes, start: nat) returns (r: Option<Number>)
    ensures r == ReadLeb(data, start)
  {
    hide BitOr, Pow2;
    var value: nat, shift: nat, offset: nat := 0, 0, start;
    while true
      invariant ReadLebFrom(data, offset, value, shift) == ReadLeb(data, start)
      decreases if offset < |data| then |data| - offset else 0
    {
      if offset >= |data| || shift > 35 {
        return None;
      }
      var byte := data[offset];
      offset := offset + 1;
      value := BitOr(value, byte % 128 * Pow2(shift));
      if byte < 128 {
        return Some(Number(value, offset));
      }
      shift := shift + 7;
    }
  }

  lemma SplitProduct(v: nat, w: nat)
    ensures v % 128 * w + v / 128 * (128 * w) == v * w
  {
    assert v == v / 128 * 128 + v % 128;
    var q, r := v / 128, v % 128;
    assert (q * 128 + r) * w == q * 128 * w + r * w;
    assert q * 128 * w == q * (128 * w);
  }

  /** 128 to the power `k`: what `k` bytes can hold. */
  function Room(k: nat): nat {
    if k == 0 then 1 else 128 * Room(k - 1)
  }

  /** One turn of the reader's loop. */
  lemma ReadStep(data: Bytes, offset: nat, value: nat, shift: nat, bits: nat)
    requires offset < |data| && shift <= 35 && value < Pow2(shift) && bits == data[offset] % 128
    ensures value + bits * Pow2(shift) < Pow2(shift + 7)
    ensures ReadLebFrom(data, offset, value, shift) ==
      if data[offset] < 128 then Some(Number(value + bits * Pow2(shift), offset + 1))
      else ReadLebFrom(data, offset + 1, value + bits * Pow2(shift), shift + 7)
  {
    OrAddsSevenBits(value, bits, shift);
    hide BitOr, Pow2;
  }

  lemma {:induction false} ReadsBack(before: Bytes, v: nat, after: Bytes, value: nat, shift: nat, k: nat)
    requires 0 < k && v < Room(k) && shift + 7 * (k - 1) <= 35 && value < Pow2(shift)
    ensures ReadLebFrom(before + Leb(v) + after, |before|, value, shift)
         == Some(Number(value + v * Pow2(shift), |before| + |Leb(v)|))
    decreases k
  {
    hide Pow2, BitOr, ReadLebFrom;
    var data := before + Leb(v) + after;
    var p := Pow2(shift);
    assert data[|before|] == Leb(v)[0];
    ReadStep(data, |before|, value, shift, v % 128);
    if v >= 128 {
      var rest := before + [v % 128 + 128];
      assert data == rest + Leb(v / 128) + after;
      assert Room(1) == 128;
      ReadsBack(rest, v / 128, after, value + v % 128 * p, shift + 7, k - 1);
      SevenBits(shift);
      SplitProduct(v, p);
    }
  }

  /** The reader inverts the writer on every u32, whatever surrounds it. */
  lemma ReaderInvertsWriter(before: Bytes, v: nat, after: Bytes)
    requires v < U32
    ensures ReadLeb(before + Leb(v) + after, |before|) == Some(Number(v, |before| + |Leb(v)|))
  {
    assert Room(5) == 128 * (128 * (128 * (128 * (128 * Room(0)))));
    ReadsBack(before, v, after, 0, 0, 5);
    assert Pow2(0) == 1;
  }

  lemma {:induction false} ReadLebAdvances(data: Bytes, offset: nat, value: nat, shift: nat)
    requires ReadLebFrom(data, offset, value, shift).Some?
    ensures offset < ReadLebFrom(data, offset, value, shift).value.next <= |data|
    decreases if offset < |data| then |data| - offset else 0
  {
    if data[offset] >= 128 {
      ReadLebAdvances(data, offset + 1, BitOr(value, data[offset] % 128 * Pow2(shift)), shift + 7);
    }
  }

  /** What was read stays read when bytes are appended. */
  lemma {:induction false} ReadLebExtends(data: Bytes, after: Bytes, offset: nat, value: nat, shift: nat)
    requires ReadLebFrom(data, offset, value, shift).Some?
    ensures ReadLebFrom(data + after, offset, value, shift) == ReadLebFrom(data, offset, value, shift)
    decreases if offset < |data| then |data| - offset else 0
  {
    assert (data + after)[offset] == data[offset];
    if data[offset] >= 128 {
      ReadLebExtends(data, after, offset + 1, BitOr(value, data[offset] % 128 * Pow2(shift)), shift + 7);
    }
  }

  lemma LebExtends(data: Bytes, after: Bytes, offset: nat)
    requires ReadLeb(data, offset).Some?
    ensures ReadLeb(data + after, offset) == ReadLeb(data, offset)
    ensures offset < ReadLeb(data, offset).value.next <= |data|
  {
    ReadLebExtends(data, after, offset, 0, 0);
    ReadLebAdvances(data, offset, 0, 0);
  }

  // ----- writing the section ------------------------------------------------------------------------

  datatype EmbedError = NotAComponent | SectionTooLarge

  function SectionBody(payload: Bytes): Bytes {
    Leb(|SECTION_NAME|) + SECTION_NAME + payload
  }

  function Embed(component: Bytes, payload: Bytes): Result<Bytes, EmbedError> {
    if !(COMPONENT_HEADER <= component) then Err(NotAComponent)
    else if |SectionBody(payload)| >= U32 then Err(SectionTooLarge)
    else Ok(component + [0] + Leb(|SectionBody(payload)|) + SectionBody(payload))
  }

  method EmbedDescriptor(component: Bytes, payload: Bytes) returns (r: Result<Bytes, EmbedError>)
    ensures r == Embed(component, payload)
  {
    if !(COMPONENT_HEADER <= component) {
      return Err(NotAComponent);
    }
    var body := WriteLeb(|SECTION_NAME|, []);
    assert body == Leb(|SECTION_NAME|);
    body := body + SECTION_NAME;
    body := body + payload;
    if |body| >= U32 {
      return Err(SectionTooLarge);
    }
    var embedded := component + [0];
    embedded := WriteLeb(|body|, embedded);
    return Ok(embedded + body);
  }

  // ----- walking the sections -----------------------------------------------------------------------

  datatype ExtractError =
    | NotWasm
    | InvalidLeb
    | SectionTooLong
    | NameTooLong
    | NameNotText
    | DuplicateDescriptor
    | NoDescriptor

  predicate NamesDescriptor(name: Bytes) {
    name == SECTION_NAME
  }

  /** A section of id 0 with the descriptor's name holds a descriptor; other sections hold none. */
  function Descriptor(
      wasm: Bytes, id: Byte, body: nat, end: nat, isText: Bytes -> bool): Result<Option<Bytes>, ExtractError>
    requires end <= |wasm|
  {
    if id != 0 then Ok(None)
    else
      var name := ReadLeb(wasm, body);
      if name.None? then Err(InvalidLeb)
      else
        var nameEnd := name.value.next + name.value.value;
        if nameEnd > end then Err(NameTooLong)
        else if !isText(wasm[name.value.next..nameEnd]) then Err(NameNotText)
        else if NamesDescriptor(wasm[name.value.next..nameEnd]) then Ok(Some(wasm[nameEnd..end]))
        else Ok(None)
  }

  /** The section loop from `offset` on, with the descriptor found so far. */
  function Walk(
      wasm: Bytes, offset: nat, found: Option<Bytes>, isText: Bytes -> bool): Result<Option<Bytes>, ExtractError>
    decreases if offset < |wasm| then |wasm| - offset else 0
  {
    if offset >= |wasm| then Ok(found)
    else
      var size := ReadLeb(wasm, offset + 1);
      if size.None? then Err(InvalidLeb)
      else
        var end := size.value.next + size.value.value;
        if end > |wasm| then Err(SectionTooLong)
        else
          ReadLebAdvances(wasm, offset + 1, 0, 0);
          var d := Descriptor(wasm, wasm[offset], size.value.next, end, isText);
          if d.Err? then Err(d.error)
          else if d.value.Some? && found.Some? then Err(DuplicateDescriptor)
          else Walk(wasm, end, if d.value.Some? then d.value else found, isText)
  }

  predicate HasHeader(wasm: Bytes) {
    CORE_HEADER <= wasm || COMPONENT_HEADER <= wasm
  }

  /** The bytes of the descriptor section, before they are parsed as JSON. */
  function Extract(wasm: Bytes, isText: Bytes -> bool): Result<Bytes, ExtractError> {
    if !HasHeader(wasm) then Err(NotWasm)
    else
      var d := Walk(wasm, 8, None, isText);
      if d.Err? then Err(d.error)
      else if d.value.None? then Err(NoDescriptor)
      else Ok(d.value.value)
  }

  method ExtractDescriptor(wasm: Bytes, isText: Bytes -> bool) returns (r: Result<Bytes, ExtractError>)
    ensures r == Extract(wasm, isText)
  {
    hide HasHeader, ReadLeb, NamesDescriptor;
    if !HasHeader(wasm) {
      return Err(NotWasm);
    }
    var offset: nat := 8;
    var descriptor: Option<Bytes> := None;
    while offset < |wasm|
      invariant Walk(wasm, offset, descriptor, isText) == Walk(wasm, 8, None, isText)
      decreases |wasm| - offset
    {
      var sectionId := wasm[offset];
      var size := ReadLebLoop(wasm, offset + 1);
      if size.None? {
        return Err(InvalidLeb);
      }
      LebExtends(wasm, [], offset + 1);
      var sectionEnd := size.value.next + size.value.value;
      if sectionEnd > |wasm| {
        return Err(SectionTooLong);
      }
      if sectionId == 0 {
        var name := ReadLebLoop(wasm, size.value.next);
        if name.None? {
          return Err(InvalidLeb);
        }
        var nameEnd := name.value.next + name.value.value;
        if nameEnd > sectionEnd {
          return Err(NameTooLong);
        }
        if !isText(wasm[name.value.next..nameEnd]) {
          return Err(NameNotText);
        }
        if NamesDescriptor(wasm[name.value.next..nameEnd]) {
          if descriptor.Some? {
            return Err(DuplicateDescriptor);
          }
          descriptor := Some(wasm[nameEnd..sectionEnd]);
        }
      }
      offset := sectionEnd;
    }
    if descriptor.None? {
      return Err(NoDescriptor);
    }
    return Ok(descriptor.value);
  }

  // ----- the writer and the reader together -----------------------------------------------------------

  /** A section that ends inside the file means the same when more sections follow. */
  lemma DescriptorExtends(wasm: Bytes, after: Bytes, id: Byte, body: nat, end: nat, isText: Bytes -> bool)
    requires end <= |wasm| && Descriptor(wasm, id, body, end, isText).Ok?
    ensures Descriptor(wasm + after, id, body, end, isText) == Descriptor(wasm, id, body, end, isText)
  {
    if id == 0 {
      LebExtends(wasm, after, body);
      var name := ReadLeb(wasm, body).value;
      var nameEnd := name.next + name.value;
      assert (wasm + after)[name.next..nameEnd] == wasm[name.next..nameEnd];
      assert (wasm + after)[nameEnd..end] == wasm[nameEnd..end];
    }
  }

  /** A walk that ends cleanly goes on where the file ended when sections are appended. */
  lemma {:induction false} WalkExtends(
      wasm: Bytes, after: Bytes, offset: nat, found: Option<Bytes>, isText: Bytes -> bool)
    requires offset <= |wasm| && Walk(wasm, offset, found, isText).Ok?
    ensures Walk(wasm + after, offset, found, isText)
         == Walk(wasm + after, |wasm|, Walk(wasm, offset, found, isText).value, isText)
    decreases |wasm| - offset
  {
    hide Descriptor, ReadLeb;
    if offset < |wasm| {
      var size := ReadLeb(wasm, offset + 1).value;
      LebExtends(wasm, after, offset + 1);
      var end := size.next + size.value;
      assert (wasm + after)[offset] == wasm[offset];
      DescriptorExtends(wasm, after, wasm[offset], size.next, end, isText);
      var d := Descriptor(wasm, wasm[offset], size.next, end, isText);
      WalkExtends(wasm, after, end, if d.value.Some? then d.value else found, isText);
    }
  }

  lemma DescriptorNamed(wasm: Bytes, body: nat, name: nat, nameEnd: nat, end: nat, isText: Bytes -> bool)
    requires name <= nameEnd <= end <= |wasm| && isText(wasm[name..nameEnd]) && NamesDescriptor(wasm[name..nameEnd])
    requires ReadLeb(wasm, body) == Some(Number(nameEnd - name, name))
    ensures Descriptor(wasm, 0, body, end, isText) == Ok(Some(wasm[nameEnd..end]))
  {
    hide ReadLeb, NamesDescriptor;
  }

  lemma DescriptorOfBody(at: Bytes, body: Bytes, name: Bytes, payload: Bytes, isText: Bytes -> bool)
    requires isText(name) && NamesDescriptor(name) && |name| < U32 && Leb(|name|) + name + payload == body
    ensures Descriptor(at + body, 0, |at|, |at + body|, isText) == Ok(Some(payload))
  {
    hide Leb, ReadLeb, Descriptor, NamesDescriptor;
    var wasm := at + body;
    ReaderInvertsWriter(at, |name|, name + payload);
    assert wasm == at + Leb(|name|) + (name + payload);
    var start := |at| + |Leb(|name|)|;
    assert wasm[start..start + |name|] == name;
    assert wasm[start + |name|..|wasm|] == payload;
    DescriptorNamed(wasm, |at|, start, start + |name|, |wasm|, isText);
  }

  lemma WalkEnds(wasm: Bytes, found: Option<Bytes>, isText: Bytes -> bool)
    ensures Walk(wasm, |wasm|, found, isText) == Ok(found)
  {
  }

  lemma WalkStep(wasm: Bytes, offset: nat, size: Number, found: Option<Bytes>, payload: Bytes, isText: Bytes -> bool)
    requires offset < |wasm| && ReadLeb(wasm, offset + 1) == Some(size) && size.next + size.value == |wasm|
    requires Descriptor(wasm, wasm[offset], size.next, |wasm|, isText) == Ok(Some(payload))
    ensures Walk(wasm, offset, found, isText) == if found.Some? then Err(DuplicateDescriptor) else Ok(Some(payload))
  {
    hide ReadLeb, Descriptor;
    WalkEnds(wasm, Some(payload), isText);
  }

  /** An appended section, met by the walk right where it starts. */
  lemma WalkMeetsSection(component: Bytes, body: Bytes, payload: Bytes, found: Option<Bytes>, isText: Bytes -> bool)
    requires |body| < U32
    requires
      var at := component + [0] + Leb(|body|);
      Descriptor(at + body, 0, |at|, |at + body|, isText) == Ok(Some(payload))
    ensures Walk(component + [0] + Leb(|body|) + body, |component|, found, isText)
         == if found.Some? then Err(DuplicateDescriptor) else Ok(Some(payload))
  {
    hide Leb, ReadLeb, Descriptor, Walk;
    var start := component + [0];
    var at := start + Leb(|body|);
    ReaderInvertsWriter(start, |body|, body);
    assert start[|component|] == 0;
    assert at[|component|] == start[|component|];
    WalkStep(at + body, |component|, Number(|body|, |at|), found, payload, isText);
  }

  /**
   * Extracting after embedding gives exactly the payload when the component had no descriptor, and a
   * duplicate when it had one; the component itself is a prefix of the result.
   */
  lemma ExtractInvertsEmbed(component: Bytes, payload: Bytes, isText: Bytes -> bool)
    requires isText(SECTION_NAME)
    requires Embed(component, payload).Ok? && Walk(component, 8, None, isText).Ok?
    ensures
      var embedded := Embed(component, payload).value;
      && component <= embedded
      && Walk(embedded, 8, None, isText) ==
           (if Walk(component, 8, None, isText).value.Some? then Err(DuplicateDescriptor) else Ok(Some(payload)))
      && Extract(embedded, isText) ==
           (if Walk(component, 8, None, isText).value.Some? then Err(DuplicateDescriptor) else Ok(payload))
  {
    var section := [0] + Leb(|SectionBody(payload)|) + SectionBody(payload);
    var embedded := Embed(component, payload).value;
    assert embedded == component + section;
    WalkExtends(component, section, 8, None, isText);
    DescriptorOfBody(component + [0] + Leb(|SectionBody(payload)|), SectionBody(payload), SECTION_NAME, payload, isText);
    WalkMeetsSection(component, SectionBody(payload), payload, Walk(component, 8, None, isText).value, isText);
    assert COMPONENT_HEADER <= embedded;
  }

  /** A second embedding makes the extraction fail, whatever the payloads. */
  lemma EmbeddingTwiceIsDuplicate(component: Bytes, first: Bytes, second: Bytes, isText: Bytes -> bool)
    requires isText(SECTION_NAME)
    requires Embed(component, first).Ok? && Walk(component, 8, None, isText) == Ok(None)
    requires |SectionBody(second)| < U32
    ensures
      var twice := Embed(Embed(component, first).value, second);
      twice.Ok? && Extract(twice.value, isText) == Err(DuplicateDescriptor)
  {
    ExtractInvertsEmbed(component, first, isText);
    ExtractInvertsEmbed(Embed(component, first).value, second, isText);
  }
}

/** The sampled content proof: size and digest of the first and last window of a file. */
module Sample {
  import opened LittleEndian
  import opened Options

  const IMPORT_CONTENT_PROOF_SAMPLE_BYTES: nat := 1024 * 1024

  /** `digest` stands for the hash of the sample. */
  datatype ContentProof<D> = ContentProof(sizeBytes: nat, sampleBytes: nat, digest: D)

  /** An open file: reading moves the position, and fails when too few bytes are left. */
  class Reader {
    const content: Bytes
    var position: nat

    constructor (content: Bytes)
      ensures this.content == content && position == 0
    {
      this.content := content;
      position := 0;
    }

    /** Seeking past the end is allowed. */
    method Seek(offset: nat)
      modifies this
      ensures position == offset
    {
      position := offset;
    }

    method ReadExact(len: nat) returns (bytes: Option<Bytes>)
      modifies this
      ensures old(position) + len <= |content| ==>
        bytes == Some(content[old(position)..old(position) + len]) && position == old(position) + len
      ensures old(position) + len > |content| ==> bytes == if len == 0 then Some([]) else None
    {
      if position + len <= |content| {
        bytes := Some(content[position..position + len]);
        position := position + len;
      } else if len == 0 {
        bytes := Some([]);
      } else {
        bytes := None;
        position := if position < |content| then |content| else position;
      }
    }
  }

  // ----- the windows ---------------------------------------------------------------------------------------

  function Min(a: nat, b: nat): nat {
    if a < b then a else b
  }

  /** How much the windows may hold together. */
  const BOUND: nat := 2 * IMPORT_CONTENT_PROOF_SAMPLE_BYTES

  /** The position is in the first or the last megabyte of `size` bytes. */
  predicate Observed(size: nat, i: nat) {
    i < size && (i < IMPORT_CONTENT_PROOF_SAMPLE_BYTES || size - IMPORT_CONTENT_PROOF_SAMPLE_BYTES <= i)
  }

  /** Reference: the observed bytes in order, by going through all positions from `i`. */
  function ObservedBytes(content: Bytes, size: nat, i: nat): Bytes
    requires i <= size <= |content|
    decreases size - i
  {
    if i == size then []
    else (if Observed(size, i) then [content[i]] else []) + ObservedBytes(content, size, i + 1)
  }

  method ReadImportContentSample(reader: Reader, offset: nat, len: nat, sample: Bytes) returns (more: Option<Bytes>)
    modifies reader
    ensures more == if offset + len <= |reader.content| then Some(sample + reader.content[offset..offset + len])
                    else if len == 0 then Some(sample) else None
  {
    reader.Seek(offset);
    var bytes := reader.ReadExact(len);
    if bytes.None? {
      return None;
    }
    more := Some(sample + bytes.value);
    assert len == 0 ==> sample + bytes.value == sample;
  }

  method SampledContentProofFromReader<D>(reader: Reader, sizeBytes: nat, hash: Bytes -> D)
    returns (proof: Option<ContentProof<D>>)
    modifies reader
    ensures proof == ProofOf(reader.content, sizeBytes, hash)
  {
    var firstLen := Min(sizeBytes, IMPORT_CONTENT_PROOF_SAMPLE_BYTES);
    var first := ReadImportContentSample(reader, 0, firstLen, []);
    if first.None? {
      return None;
    }
    var sample := first.value;
    var remainingAfterFirst := sizeBytes - firstLen;
    var lastLen := Min(remainingAfterFirst, IMPORT_CONTENT_PROOF_SAMPLE_BYTES);
    if lastLen > 0 {
      var lastOffset := sizeBytes - lastLen;
      var both := ReadImportContentSample(reader, lastOffset, lastLen, sample);
      if both.None? {
        return None;
      }
      sample := both.value;
    }
    ObservedIsTwoWindows(reader.content, sizeBytes);
    assert sample == ObservedBytes(reader.content, sizeBytes, 0);
    proof := Some(ContentProof(sizeBytes, |sample|, hash(sample)));
  }

  /** What the proof is to be: reading fails exactly when the file is shorter than the size it is said to have. */
  function ProofOf<D>(content: Bytes, size: nat, hash: Bytes -> D): Option<ContentProof<D>> {
    if size > |content| then None
    else Some(ContentProof(size, |ObservedBytes(content, size, 0)|, hash(ObservedBytes(content, size, 0))))
  }

  lemma {:induction false} ObservedFrom(content: Bytes, size: nat, i: nat, n: nat)
    requires i <= n <= size <= |content|
    requires forall j :: i <= j < n ==> Observed(size, j)
    ensures ObservedBytes(content, size, i) == content[i..n] + ObservedBytes(content, size, n)
    decreases n - i
  {
    if i < n {
      ObservedFrom(content, size, i + 1, n);
      assert content[i..n] == [content[i]] + content[i + 1..n];
    } else {
      assert content[i..n] == [];
    }
  }

  lemma {:induction false} UnobservedFrom(content: Bytes, size: nat, i: nat, n: nat)
    requires i <= n <= size <= |content|
    requires forall j :: i <= j < n ==> !Observed(size, j)
    ensures ObservedBytes(content, size, i) == ObservedBytes(content, size, n)
    decreases n - i
  {
    if i < n {
      UnobservedFrom(content, size, i + 1, n);
    }
  }

  /**
   * The first window and the last, which never overlap, hold the observed bytes, each once: min(size, 2 MiB) of
   * them.
   */
  lemma ObservedIsTwoWindows(content: Bytes, size: nat)
    requires size <= |content|
    ensures var f := Min(size, IMPORT_CONTENT_PROOF_SAMPLE_BYTES);
      var l := Min(size - f, IMPORT_CONTENT_PROOF_SAMPLE_BYTES);
      && f <= size - l
      && ObservedBytes(content, size, 0) == content[..f] + content[size - l..size]
      && |ObservedBytes(content, size, 0)| == Min(size, BOUND)
  {
    var f := Min(size, IMPORT_CONTENT_PROOF_SAMPLE_BYTES);
    var l := Min(size - f, IMPORT_CONTENT_PROOF_SAMPLE_BYTES);
    ObservedFrom(content, size, 0, f);
    UnobservedFrom(content, size, f, size - l);
    ObservedFrom(content, size, size - l, size);
    assert content[0..f] == content[..f];
  }

  // ----- what a match means --------------------------------------------------------------------------------

  ghost predicate Injective<D>(hash: Bytes -> D) {
    forall a, b :: hash(a) == hash(b) ==> a == b
  }

  /** Same size, and the same byte wherever the proof looks. */
  predicate AgreeWhereObserved(a: Bytes, b: Bytes) {
    |a| == |b| && forall i :: 0 <= i < |a| && Observed(|a|, i) ==> a[i] == b[i]
  }

  lemma ObservedAt(content: Bytes, i: nat)
    requires i < |content| && Observed(|content|, i)
    ensures var k := if i < IMPORT_CONTENT_PROOF_SAMPLE_BYTES then i else i - (|content| - Min(|content|, BOUND));
      var sample := ObservedBytes(content, |content|, 0);
      k < |sample| && sample[k] == content[i]
  {
    ObservedIsTwoWindows(content, |content|);
  }

  lemma {:induction false} SameObserved(a: Bytes, b: Bytes, i: nat)
    requires AgreeWhereObserved(a, b) && i <= |a|
    ensures ObservedBytes(a, |a|, i) == ObservedBytes(b, |b|, i)
    decreases |a| - i
  {
    if i < |a| {
      SameObserved(a, b, i + 1);
    }
  }

  /** With a hash that tells samples apart, proofs match exactly when sizes and both windows do. */
  lemma ProofsMatchExactlyWhen<D>(a: Bytes, b: Bytes, hash: Bytes -> D)
    requires Injective(hash)
    ensures ProofOf(a, |a|, hash) == ProofOf(b, |b|, hash) <==> AgreeWhereObserved(a, b)
  {
    if AgreeWhereObserved(a, b) {
      SameObserved(a, b, 0);
    }
    if ProofOf(a, |a|, hash) == ProofOf(b, |b|, hash) {
      assert hash(ObservedBytes(a, |a|, 0)) == hash(ObservedBytes(b, |b|, 0));
      forall i | 0 <= i < |a| && Observed(|a|, i) ensures a[i] == b[i] {
        ObservedAt(a, i);
        ObservedAt(b, i);
      }
    }
  }

  /** Up to twice the window, a match means that the files are the same. */
  lemma SmallFilesMatchOnlyIfEqual<D>(a: Bytes, b: Bytes, hash: Bytes -> D)
    requires Injective(hash) && |a| <= BOUND
    ensures ProofOf(a, |a|, hash) == ProofOf(b, |b|, hash) <==> a == b
  {
    ProofsMatchExactlyWhen(a, b, hash);
    if AgreeWhereObserved(a, b) {
      forall i | 0 <= i < |a| ensures a[i] == b[i] {
        assert Observed(|a|, i);
      }
    }
  }

  /** One changed byte is noticed exactly where the proof looks; between the windows it never is. */
  lemma ChangeIsNoticedExactlyWhen<D>(content: Bytes, i: nat, byte: Byte, hash: Bytes -> D)
    requires Injective(hash) && i < |content| && byte != content[i]
    ensures ProofOf(content, |content|, hash) != ProofOf(content[i := byte], |content|, hash) <==> Observed(|content|, i)
  {
    ProofsMatchExactlyWhen(content, content[i := byte], hash);
  }

  /** Bytes after the stated size, of a file that has grown since, play no part. */
  lemma {:induction false} GrowthIsNotSeen<D>(content: Bytes, size: nat, hash: Bytes -> D)
    requires size <= |content|
    ensures ProofOf(content, size, hash) == ProofOf(content[..size], size, hash)
  {
    GrowthFrom(content, size, 0);
  }

  lemma {:induction false} GrowthFrom(content: Bytes, size: nat, i: nat)
    requires i <= size <= |content|
    ensures ObservedBytes(content, size, i) == ObservedBytes(content[..size], size, i)
    decreases size - i
  {
    if i < size {
      GrowthFrom(content, size, i + 1);
    }
  }

  /** A copy is accepted exactly when the proofs are equal. */
  method VerifyContentProofs<D(==)>(source: ContentProof<D>, dest: ContentProof<D>) returns (accepted: bool)
    ensures accepted <==>
      source.sizeBytes == dest.sizeBytes && source.sampleBytes == dest.sampleBytes && source.digest == dest.digest
  {
    accepted := source == dest;
  }

  /** The windows are the first and the last 1048576 bytes. */
  lemma ObservedSpelled(size: nat, i: nat)
    ensures Observed(size, i) <==> i < size && (i < 1048576 || i >= size - 1048576)
    ensures BOUND == 2097152
  {
  }
}

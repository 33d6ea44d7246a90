/** The structural descriptor of a source file: what it reads, what it records, and what its one
    comparison rule detects. */
module Descriptor {
  import opened Options

  const FOOTER_DESCRIPTOR_MAX_BYTES: nat := 8 * 1024 * 1024
  const PARQUET_TAIL_BYTES: nat := 8

  type byte = x: nat | x < 256

  /** 'P' 'A' 'R' '1'. */
  const PARQUET_MAGIC: seq<byte> := [0x50, 0x41, 0x52, 0x31]

  /** A file that does not change while it is read. */
  datatype File = File(bytes: seq<byte>, modifiedNanos: Option<nat>)

  datatype Degradation = NoModificationTime | FooterOverCeiling

  datatype SourceDescriptor = SourceDescriptor(
    byteSize: nat,
    modifiedNanos: Option<nat>,
    footerLength: nat,
    footerHash: Option<string>,
    footerBytesRead: nat,
    degradations: seq<Degradation>)

  datatype SourceObservation = SourceObservation(
    byteSize: nat, modifiedNanos: Option<nat>, footerLength: nat, footerHash: Option<string>)

  datatype Reading = Described(d: SourceDescriptor) | TooShort | NoMagic | FooterLongerThanFile

  /** `u32::from_le_bytes`. */
  function LittleEndian(b: seq<byte>): (n: nat)
    requires |b| == 4
    ensures n < 0x1_0000_0000
  {
    var b0: nat, b1: nat, b2: nat, b3: nat := b[0], b[1], b[2], b[3];
    b0 + 256 * b1 + 65536 * b2 + 16777216 * b3
  }

  /** The byte order is pinned by the round trip from every number below 2^32. */
  lemma {:induction false} LittleEndianRoundTrip(n: nat)
    requires n < 0x1_0000_0000
    ensures LittleEndian(LittleEndianBytes(n)) == n
  {
    assert n / 65536 == n / 256 / 256 && n / 16777216 == n / 256 / 256 / 256;
  }

  /** The announced footer length of a file that ends like a parquet file. */
  function AnnouncedLength(f: File): nat
    requires |f.bytes| >= PARQUET_TAIL_BYTES
  {
    LittleEndian(f.bytes[|f.bytes| - 8..|f.bytes| - 4])
  }

  predicate EndsInMagic(f: File) {
    |f.bytes| >= PARQUET_TAIL_BYTES && f.bytes[|f.bytes| - 4..] == PARQUET_MAGIC
  }

  /** The footer lies in the file and is small enough to read. */
  predicate FooterReadable(f: File) {
    EndsInMagic(f) && AnnouncedLength(f) <= FOOTER_DESCRIPTOR_MAX_BYTES &&
    AnnouncedLength(f) + PARQUET_TAIL_BYTES <= |f.bytes|
  }

  function Footer(f: File): seq<byte>
    requires FooterReadable(f)
  {
    f.bytes[|f.bytes| - 8 - AnnouncedLength(f)..|f.bytes| - 8]
  }

  function LittleEndianBytes(n: nat): (b: seq<byte>)
    requires n < 0x1_0000_0000
    ensures |b| == 4
  {
    [n % 256, n / 256 % 256, n / 65536 % 256, n / 16777216]
  }

  /** A file written as a parquet file is: whatever it holds, then a footer, then the footer's length and
      the magic. Exactly that length is announced and exactly that footer is read. */
  lemma {:induction false} AWrittenFooterIsRead(body: seq<byte>, footer: seq<byte>, mtime: Option<nat>)
    requires |footer| <= FOOTER_DESCRIPTOR_MAX_BYTES
    ensures var f := File(body + footer + LittleEndianBytes(|footer|) + PARQUET_MAGIC, mtime);
            FooterReadable(f) && AnnouncedLength(f) == |footer| && Footer(f) == footer
  {
    var tail := LittleEndianBytes(|footer|);
    var f := File(body + footer + tail + PARQUET_MAGIC, mtime);
    assert f.bytes[|f.bytes| - 4..] == PARQUET_MAGIC;
    assert f.bytes[|f.bytes| - 8..|f.bytes| - 4] == tail;
    LittleEndianRoundTrip(|footer|);
    assert AnnouncedLength(f) == |footer|;
    assert f.bytes[|body|..|body| + |footer|] == footer;
  }

  /** `SourceDescriptor::of`: sequential reads at the end of the file. `read` counts the bytes; the
      whole file is never read. */
  method Of(f: File, sha: seq<byte> -> string) returns (r: Reading, read: nat)
    ensures read <= FOOTER_DESCRIPTOR_MAX_BYTES + PARQUET_TAIL_BYTES && read <= |f.bytes|
    ensures r.TooShort? <==> |f.bytes| < PARQUET_TAIL_BYTES
    ensures r.NoMagic? <==> |f.bytes| >= PARQUET_TAIL_BYTES && !EndsInMagic(f)
    ensures r.FooterLongerThanFile? <==>
              && EndsInMagic(f) && AnnouncedLength(f) <= FOOTER_DESCRIPTOR_MAX_BYTES
              && AnnouncedLength(f) + PARQUET_TAIL_BYTES > |f.bytes|
    ensures r.Described? ==> Describes(r.d, f, sha)
  {
    read := 0;
    var byteSize := |f.bytes|;
    var degradations: seq<Degradation> := [];
    if f.modifiedNanos.None? {
      degradations := degradations + [NoModificationTime];
    }
    if byteSize < PARQUET_TAIL_BYTES {
      return TooShort, read;
    }
    var tail := f.bytes[byteSize - PARQUET_TAIL_BYTES..];
    read := read + |tail|;
    assert tail[4..8] == f.bytes[byteSize - 4..];
    assert tail[0..4] == f.bytes[byteSize - 8..byteSize - 4];
    if tail[4..8] != PARQUET_MAGIC {
      return NoMagic, read;
    }
    var footerLength := LittleEndian(tail[0..4]);
    if footerLength > FOOTER_DESCRIPTOR_MAX_BYTES {
      degradations := degradations + [FooterOverCeiling];
      return Described(SourceDescriptor(byteSize, f.modifiedNanos, footerLength, None, 0, degradations)), read;
    }
    if byteSize < PARQUET_TAIL_BYTES + footerLength {
      return FooterLongerThanFile, read;
    }
    var footerStart := byteSize - (PARQUET_TAIL_BYTES + footerLength);
    var footer := f.bytes[footerStart..footerStart + footerLength];
    read := read + |footer|;
    r := Described(SourceDescriptor(byteSize, f.modifiedNanos, footerLength, Some(sha(footer)), footerLength,
                                    degradations));
  }

  /** What a descriptor says about the file it was read from. */
  ghost predicate Describes(d: SourceDescriptor, f: File, sha: seq<byte> -> string) {
    && EndsInMagic(f)
    && d.byteSize == |f.bytes| && d.modifiedNanos == f.modifiedNanos && d.footerLength == AnnouncedLength(f)
    && (d.footerHash.None? <==> AnnouncedLength(f) > FOOTER_DESCRIPTOR_MAX_BYTES)
    && (d.footerHash.Some? ==> FooterReadable(f) && d.footerHash.value == sha(Footer(f)))
    && (NoModificationTime in d.degradations <==> d.modifiedNanos.None?)
    && (FooterOverCeiling in d.degradations <==> d.footerHash.None?)
    && d.footerBytesRead == (if d.footerHash.Some? then d.footerLength else 0)
  }

  // ---------------------------------------------------------------- the one comparison rule

  datatype Component = Size | Mtime | FooterLength | FooterHash

  function Observation(d: SourceDescriptor): SourceObservation {
    SourceObservation(d.byteSize, d.modifiedNanos, d.footerLength, d.footerHash)
  }

  /** The hash rule: two hashes that were both taken disagree. */
  predicate HashesDiffer(a: Option<string>, b: Option<string>) { a.Some? && b.Some? && a != b }

  /** Whether one component differs. */
  predicate Differs(a: SourceObservation, b: SourceObservation, c: Component) {
    match c
    case Size => a.byteSize != b.byteSize
    case Mtime => a.modifiedNanos != b.modifiedNanos
    case FooterLength => a.footerLength != b.footerLength
    case FooterHash => HashesDiffer(a.footerHash, b.footerHash)
  }

  predicate Unchanged(a: SourceObservation, b: SourceObservation) {
    !Differs(a, b, Size) && !Differs(a, b, Mtime) && !Differs(a, b, FooterLength) && !Differs(a, b, FooterHash)
  }

  /** `differing_components`: every component that differs, each named once, in a fixed order. */
  method DifferingComponents(before: SourceObservation, now: SourceObservation) returns (out: seq<Component>)
    ensures forall c :: c in out <==> Differs(before, now, c)
    ensures out == [] <==> Unchanged(before, now)
    ensures |out| <= 4
  {
    out := [];
    if before.byteSize != now.byteSize {
      out := out + [Size];
    }
    match (before.modifiedNanos, now.modifiedNanos) {
      case (Some(a), Some(b)) =>
        if a != b {
          out := out + [Mtime];
        }
      case (None, None) =>
      case _ => out := out + [Mtime];
    }
    if before.footerLength != now.footerLength {
      out := out + [FooterLength];
    }
    if before.footerHash.Some? && now.footerHash.Some? && before.footerHash != now.footerHash {
      out := out + [FooterHash];
    }
  }

  /** On descriptors that were read from files, "no component differs" is equality of all four
      components, although the rule skips an untaken hash. */
  lemma {:induction false} UnchangedIsEquality(
    a: SourceDescriptor, b: SourceDescriptor, f: File, g: File, sha: seq<byte> -> string)
    requires Describes(a, f, sha) && Describes(b, g, sha)
    ensures Unchanged(Observation(a), Observation(b)) <==> Observation(a) == Observation(b)
  {
  }

  /** Hence it is an equivalence on them: a session that saw no change twice saw no change. */
  lemma {:induction false} UnchangedIsTransitive(
    a: SourceDescriptor, b: SourceDescriptor, c: SourceDescriptor, f: File, g: File, h: File, sha: seq<byte> -> string)
    requires Describes(a, f, sha) && Describes(b, g, sha) && Describes(c, h, sha)
    requires Unchanged(Observation(a), Observation(b)) && Unchanged(Observation(b), Observation(c))
    ensures Unchanged(Observation(a), Observation(c)) && Unchanged(Observation(c), Observation(a))
  {
    UnchangedIsEquality(a, b, f, g, sha);
    UnchangedIsEquality(b, c, g, h, sha);
  }

  /** The rule alone is not transitive: recorded observations need not obey the ceiling, and one
      without a hash agrees with two that disagree. */
  lemma {:induction false} RecordedObservationsAreNotTransitive()
    ensures var a := SourceObservation(100, Some(7), 10, Some("x"));
            var b := SourceObservation(100, Some(7), 10, None);
            var c := SourceObservation(100, Some(7), 10, Some("y"));
            Unchanged(a, b) && Unchanged(b, c) && !Unchanged(a, c)
  {
  }

  /** Exactly when two steps without a change add up to none: when the observation between them took a
      hash, or the outer two do not disagree in theirs. */
  lemma {:induction false} UnchangedAddsUpWhen(a: SourceObservation, b: SourceObservation, c: SourceObservation)
    requires Unchanged(a, b) && Unchanged(b, c)
    ensures Unchanged(a, c) <==> b.footerHash.Some? || !HashesDiffer(a.footerHash, c.footerHash)
  {
  }

  /** Over every run of recorded observations in which each one shows no change from the one before,
      only a hash can have changed unnoticed: the last shows no change from the first exactly when their
      own hashes do not disagree, and they cannot once every observation in between took one. */
  lemma {:induction false} UnchangedOverRuns(seen: seq<SourceObservation>)
    requires |seen| >= 2 && forall i :: 0 < i < |seen| ==> Unchanged(seen[i - 1], seen[i])
    ensures var (first, last) := (seen[0], seen[|seen| - 1]);
            && !Differs(first, last, Size) && !Differs(first, last, Mtime) && !Differs(first, last, FooterLength)
            && (Unchanged(first, last) <==> !HashesDiffer(first.footerHash, last.footerHash))
            && ((forall i :: 0 < i < |seen| - 1 ==> seen[i].footerHash.Some?) ==> Unchanged(first, last))
  {
    if |seen| > 2 {
      var n := |seen| - 1;
      UnchangedOverRuns(seen[..n]);
      assert Unchanged(seen[n - 1], seen[n]);
      assert forall i :: 0 < i < n - 1 ==> seen[..n][i] == seen[i];
    }
  }

  /** What a comparison of two reads of files detects: everything but the bytes before the footer, and
      the footer's own bytes once it is over the ceiling. */
  lemma {:induction false} WhatIsDetected(
    f: File, g: File, a: SourceDescriptor, b: SourceDescriptor, sha: seq<byte> -> string)
    requires Describes(a, f, sha) && Describes(b, g, sha)
    requires FooterReadable(f) && FooterReadable(g) && sha(Footer(f)) == sha(Footer(g)) ==> Footer(f) == Footer(g)
    ensures Unchanged(Observation(a), Observation(b)) <==>
            && |f.bytes| == |g.bytes| && f.modifiedNanos == g.modifiedNanos && AnnouncedLength(f) == AnnouncedLength(g)
            && (AnnouncedLength(f) <= FOOTER_DESCRIPTOR_MAX_BYTES ==> Footer(f) == Footer(g))
  {
    UnchangedIsEquality(a, b, f, g, sha);
  }
}

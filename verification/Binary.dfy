/**
  Documents as binary data: an 8-byte file header in front of the root container.
 */
module Binary {
  import opened Bytes
  import opened Arena
  import opened Validity
  import opened Trust
  import opened Store

  /** `JsonDocument::BinaryFormatTag`: the letters q, b, j, s. */
  const BINARY_FORMAT_TAG: word := 0x736A_6271

  /** What `Data` keeps in front of its body. */
  function FileHeader(): (h: Bytes)
    ensures |h| == FILE_HEADER
  {
    LE4(BINARY_FORMAT_TAG) + LE4(1)
  }

  /** `Data::valid` on the body that follows a file header with the right tag and version. */
  predicate ValidRoot(body: Bytes) {
    |body| >= HEADER && ValidContainer(body, 0, IsObject(body))
  }

  /** The basic checks `fromBinaryData` makes before it copies anything. */
  predicate HasFileHeader(raw: Bytes) {
    && |raw| >= FILE_HEADER + HEADER
    && U32(raw, 0) == BINARY_FORMAT_TAG && U32(raw, 4) == 1
    && FILE_HEADER + U32(raw, 8) <= |raw| % TWO_TO_THE_32
  }

  function BodyOf(raw: Bytes): Bytes
    requires HasFileHeader(raw)
  {
    raw[FILE_HEADER..FILE_HEADER + U32(raw, 8)]
  }

  /** `Data::valid`: the root is checked as what its tag says it is. */
  method IsValid(body: Bytes) returns (r: bool)
    ensures r == ValidRoot(body)
  {
    if |body| < HEADER {
      return false;
    }
    if IsObject(body) {
      r := ObjectIsValid(body, 0);
    } else {
      r := ArrayIsValid(body, 0);
    }
  }

  /** `JsonDocument::toBinaryData` */
  method ToBinaryData(d: Data) returns (raw: Bytes)
    requires d.HasRoot()
    ensures raw == FileHeader() + d.Root()
    ensures raw[..8] == [0x71, 0x62, 0x6A, 0x73, 1, 0, 0, 0] && raw[8..] == d.Root()
  {
    FileHeaderBytes();
    raw := FileHeader() + d.body[..Size(d.body)];
  }

  /** `JsonDocument::fromBinaryData`; null stands for the null document. */
  method FromBinaryData(raw: Bytes, validate: bool) returns (r: Data?)
    ensures r != null <==> HasFileHeader(raw) && (validate ==> ValidRoot(BodyOf(raw)))
    ensures r != null ==> fresh(r) && r.body == BodyOf(raw) && r.compactionCounter == 0
  {
    if !HasFileHeader(raw) {
      return null;
    }
    if validate {
      var ok := IsValid(BodyOf(raw));
      if !ok {
        return null;
      }
    }
    r := new Data.Raw(BodyOf(raw));
  }

  lemma FileHeaderBytes()
    ensures FileHeader() == [0x71, 0x62, 0x6A, 0x73, 1, 0, 0, 0]
  {}

  /** The file header is accepted byte by byte: "qbjs" and version 1, and a root that is there in full. */
  lemma FileHeaderIff(raw: Bytes)
    requires |raw| < 0x1_0000_0000
    ensures HasFileHeader(raw) <==>
            && |raw| >= 20 && raw[..8] == [0x71, 0x62, 0x6A, 0x73, 1, 0, 0, 0]
            && 8 + raw[8] as nat + 0x100 * raw[9] as nat + 0x1_0000 * raw[10] as nat + 0x100_0000 * raw[11] as nat
               <= |raw|
  {
    if |raw| >= 20 {
      assert forall k :: 0 <= k < 8 ==> raw[..8][k] == raw[k];
    }
  }

  lemma FileHeaderFields(rest: Bytes)
    ensures var raw := FileHeader() + rest; U32(raw, 0) == BINARY_FORMAT_TAG && U32(raw, 4) == 1
  {
    var raw, a, c := FileHeader() + rest, LE4(BINARY_FORMAT_TAG), LE4(1);
    assert raw[0..4] == a[0..4] && raw[4..8] == c[0..4];
    U32Moved(raw, 0, a, 0);
    U32Moved(raw, 4, c, 0);
    U32OfLE4(BINARY_FORMAT_TAG);
    U32OfLE4(1);
  }

  /** What `toBinaryData` writes for a well-formed root passes every check and is taken over unchanged. */
  lemma SavedIsAccepted(b: Bytes)
    requires Doc(b).Some? && |b| < 0x8000_0000
    ensures var raw := FileHeader() + b; HasFileHeader(raw) && BodyOf(raw) == b && ValidRoot(b)
  {
    hide Contents, U32, ValidContainer;
    var raw := FileHeader() + b;
    FileHeaderFields(b);
    BlockSizeAligned(b, IsObject(b));
    assert raw[8..12] == b[0..4];
    U32Moved(raw, 8, b, 0);
    assert raw[8..8 + |b|] == b;
    assert b[0..|b|] == b;
    ContainerAccepted(b, 0, b, IsObject(b));
  }

  /** What has been loaded with validation is a document exactly when it is tidy besides. */
  lemma LoadedIff(raw: Bytes)
    requires HasFileHeader(raw) && |raw| < 0x8000_0000 && ValidRoot(BodyOf(raw))
    ensures var b := BodyOf(raw); Doc(b).Some? <==> Tidy(b, IsObject(b))
  {
    hide Doc, Tidy, ValidContainer, U32;
    RootWellFormedIff(BodyOf(raw));
  }

  /**
    A document written as binary data and loaded again, with or without validation, is the
    same document, whatever edits left behind in its buffer.
   */
  method SaveAndLoad(d: Data, validate: bool) returns (r: Data?)
    requires d.RootDoc().Some? && Size(d.body) < 0x8000_0000
    ensures r != null && fresh(r) && r.RootDoc() == d.RootDoc()
    ensures r.body == d.Root()
  {
    hide Contents, U32;
    var raw := ToBinaryData(d);
    SavedIsAccepted(d.Root());
    r := FromBinaryData(raw, validate);
    BlockSizeAligned(d.Root(), IsObject(d.Root()));
    assert d.Root()[..|d.Root()|] == d.Root();
  }
}

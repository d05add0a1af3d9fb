/** The structures of the bundle format, as schemas, and how headers are interpreted. */
module Format {
  import opened Base
  import opened Schema
  import opened BlockIndexing
  import opened BlockEncoding
  import opened Chunkers
  import Tags

  /** How names in headers are understood. Strings are only known to be checked. */
  datatype Registry = Registry(
    text: seq<byte> -> bool,
    hashDigest: seq<byte> -> bool,
    deltaFormat: seq<byte> -> bool,
    hashAlgorithm: seq<byte> -> Option<HashAlgorithm>,
    chunker: seq<byte> -> Option<Algorithm>,
    compression: seq<byte> -> Option<Xz>)
  {
    /** Hash algorithms and compressors can be used. Not every chunker that has a name can. */
    ghost predicate Valid() {
      (forall b :: hashAlgorithm(b).Some? ==> hashAlgorithm(b).value.Valid()) &&
      (forall b :: compression(b).Some? ==> compression(b).value.Valid())
    }

    function Text(): Item { Prim(text) }
    function Digest(): Item { Prim(hashDigest) }
    function HashName(): Item { Prim(b => hashAlgorithm(b).Some?) }
    function ChunkerName(): Item { Prim(b => chunker(b).Some?) }
    function CompressionName(): Item { Prim(b => compression(b).Some?) }

    function BundleHeader(): Item {
      Struct([Field(Tags.BUNDLE_HEADER_MANIFEST, Optional, Text()),
              Field(Tags.BUNDLE_HEADER_IS_INCREMENTAL, Required, BOOL),
              Field(Tags.BUNDLE_HEADER_HASH_ALGORITHM, Required, HashName()),
              Field(Tags.BUNDLE_HEADER_PAYLOAD_INDEX, Repeated, PayloadEntry())])
    }

    function PayloadEntry(): Item {
      Struct([Field(Tags.PAYLOAD_ENTRY_TYPE_SLOT, Optional,
                    Struct([Field(Tags.PAYLOAD_TYPE_SLOT_SLOT, Required, Text())])),
              Field(Tags.PAYLOAD_ENTRY_TYPE_EXECUTE, Optional,
                    Struct([Field(Tags.PAYLOAD_TYPE_EXECUTE_HANDLER, Repeated, Text())])),
              Field(Tags.PAYLOAD_ENTRY_TYPE_APP_FILE, Optional,
                    Struct([Field(Tags.PAYLOAD_TYPE_APP_FILE_APP, Required, Text()),
                            Field(Tags.PAYLOAD_TYPE_APP_FILE_PATH, Required, Text()),
                            Field(Tags.PAYLOAD_TYPE_APP_FILE_MODE, Optional, U32)])),
              Field(Tags.PAYLOAD_ENTRY_TYPE_APP_ARCHIVE, Optional,
                    Struct([Field(Tags.PAYLOAD_TYPE_APP_ARCHIVE_APP, Required, Text())])),
              Field(Tags.PAYLOAD_ENTRY_HEADER_HASH, Required, BYTES),
              Field(Tags.PAYLOAD_ENTRY_FILE_HASH, Required, BYTES),
              Field(Tags.PAYLOAD_ENTRY_DELTA_ENCODING, Optional,
                    Struct([Field(Tags.DELTA_ENCODING_FORMAT, Required, Prim(deltaFormat)),
                            Field(Tags.DELTA_ENCODING_INPUT, Repeated,
                                  Struct([Field(Tags.DELTA_ENCODING_INPUT_HASH, Repeated, Digest())])),
                            Field(Tags.DELTA_ENCODING_ORIGINAL_HASH, Required, Digest())]))])
    }

    function PayloadHeader(): Item {
      Struct([Field(Tags.PAYLOAD_HEADER_BLOCK_ENCODING, Optional, BlockEncoding())])
    }

    function BlockEncoding(): Item {
      Struct([Field(Tags.BLOCK_ENCODING_CHUNKER, Required, ChunkerName()),
              Field(Tags.BLOCK_ENCODING_HASH_ALGORITHM, Required, HashName()),
              Field(Tags.BLOCK_ENCODING_DEDUPLICATED, Required, BOOL),
              Field(Tags.BLOCK_ENCODING_COMPRESSION, Optional, CompressionName()),
              Field(Tags.BLOCK_ENCODING_BLOCK_HASHES, Required, BYTES),
              Field(Tags.BLOCK_ENCODING_BLOCK_SIZES, Optional, BYTES)])
    }

    function BlockIndex(): Item {
      Struct([Field(Tags.BLOCK_INDEX_CHUNKER, Required, ChunkerName()),
              Field(Tags.BLOCK_INDEX_HASH_ALGORITHM, Required, HashName()),
              Field(Tags.BLOCK_INDEX_BLOCK_HASHES, Required, BYTES),
              Field(Tags.BLOCK_INDEX_BLOCK_SIZES, Required, BYTES)])
    }

    function SignedMetadata(): Item {
      Struct([Field(Tags.SIGNED_METADATA_HEADER_HASH, Required, Digest())])
    }
  }

  const BYTES: Item := Prim(b => true)
  const BOOL: Item := Prim(b => b == [0] || b == [1])
  const U32: Item := Prim(b => |b| == 4)

  const SIGNATURES: Item := Struct([Field(Tags.SIGNATURES_CMS_SIGNATURE, Repeated, BYTES)])

  const XZ_COMPRESSION: Item := Struct([])

  /** No structure of the format uses a tag twice. */
  lemma FormatWellFormed(r: Registry)
    ensures WellFormed(r.BundleHeader()) && WellFormed(r.PayloadHeader()) && WellFormed(SIGNATURES)
    ensures WellFormed(r.BlockIndex()) && WellFormed(r.SignedMetadata()) && WellFormed(XZ_COMPRESSION)
  {
    EntryWellFormed(r);
    BlocksWellFormed(r);
    var h := r.BundleHeader().fields;
    assert h[0].tag[0] == 0x16 && h[1].tag[0] == 0x20 && h[2].tag[0] == 0x5c && h[3].tag[0] == 0x13;
  }

  lemma BlocksWellFormed(r: Registry)
    ensures WellFormed(r.BlockEncoding()) && WellFormed(r.PayloadHeader()) && WellFormed(r.BlockIndex())
  {
    var e := r.BlockEncoding().fields;
    assert e[0].tag[0] == 0x55 && e[1].tag[0] == 0x7f && e[2].tag[0] == 0x05;
    assert e[3].tag[0] == 0x78 && e[4].tag[0] == 0x76 && e[5].tag[0] == 0x27;
    assert WellFormed(r.BlockEncoding());
    var i := r.BlockIndex().fields;
    assert i[0].tag[0] == 0x5c && i[1].tag[0] == 0x1d && i[2].tag[0] == 0x55 && i[3].tag[0] == 0x46;
  }

  lemma FileWellFormed(r: Registry)
    ensures WellFormed(r.PayloadEntry().fields[2].item)
  {
    var file := r.PayloadEntry().fields[2].item.fields;
    assert file[0].tag[0] == 0x6b && file[1].tag[0] == 0x2c && file[2].tag[0] == 0x83;
  }

  lemma DeltaWellFormed(r: Registry)
    ensures WellFormed(r.PayloadEntry().fields[6].item)
  {
    var delta := r.PayloadEntry().fields[6].item.fields;
    assert delta[0].tag[0] == 0x3b && delta[1].tag[0] == 0x4e && delta[2].tag[0] == 0x64;
    assert WellFormed(delta[1].item);
  }

  lemma EntryWellFormed(r: Registry)
    ensures WellFormed(r.PayloadEntry())
  {
    var f := r.PayloadEntry().fields;
    assert f[0].tag[0] == 0x45 && f[1].tag[0] == 0x3a && f[2].tag[0] == 0x21 && f[3].tag[0] == 0x40;
    assert f[4].tag[0] == 0x5f && f[5].tag[0] == 0x0c && f[6].tag[0] == 0x27;
    assert WellFormed(f[0].item) && WellFormed(f[1].item) && WellFormed(f[3].item);
    FileWellFormed(r);
    DeltaWellFormed(r);
  }
}

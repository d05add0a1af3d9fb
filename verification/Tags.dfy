/** The tags of the bundle format. */
module Tags {
  import opened Stlv

  const BUNDLE: Tag := [0x6b, 0x50, 0x74, 0x1c]
  const BUNDLE_HEADER: Tag := [0x49, 0xaf, 0x64, 0x33]
  const BUNDLE_HEADER_MANIFEST: Tag := [0x16, 0x1a, 0xa2, 0x42]
  const BUNDLE_HEADER_IS_INCREMENTAL: Tag := [0x20, 0xf3, 0xd1, 0x6b]
  const BUNDLE_HEADER_HASH_ALGORITHM: Tag := [0x5c, 0xb8, 0x0d, 0xd6]
  const BUNDLE_HEADER_PAYLOAD_INDEX: Tag := [0x13, 0x73, 0x79, 0x92]
  const PAYLOAD_ENTRY_TYPE_SLOT: Tag := [0x45, 0xca, 0x7e, 0x7e]
  const PAYLOAD_ENTRY_TYPE_EXECUTE: Tag := [0x3a, 0xdf, 0x32, 0xf5]
  const PAYLOAD_ENTRY_TYPE_APP_FILE: Tag := [0x21, 0x4c, 0x6e, 0x2b]
  const PAYLOAD_ENTRY_TYPE_APP_ARCHIVE: Tag := [0x40, 0xa8, 0x86, 0x30]
  const PAYLOAD_ENTRY_HEADER_HASH: Tag := [0x5f, 0x6a, 0x60, 0xb1]
  const PAYLOAD_ENTRY_FILE_HASH: Tag := [0x0c, 0x8d, 0x1f, 0xd0]
  const PAYLOAD_ENTRY_DELTA_ENCODING: Tag := [0x27, 0x2c, 0xdf, 0x9f]
  const PAYLOAD_TYPE_SLOT_SLOT: Tag := [0x1b, 0x23, 0x1d, 0xe7]
  const PAYLOAD_TYPE_EXECUTE_HANDLER: Tag := [0x4b, 0x38, 0x36, 0xa2]
  const PAYLOAD_TYPE_APP_FILE_APP: Tag := [0x6b, 0x42, 0xb4, 0xa2]
  const PAYLOAD_TYPE_APP_FILE_PATH: Tag := [0x2c, 0x4e, 0x33, 0xb4]
  const PAYLOAD_TYPE_APP_FILE_MODE: Tag := [0x83, 0xdd, 0x01, 0xfb]
  const PAYLOAD_TYPE_APP_ARCHIVE_APP: Tag := [0x3f, 0xa2, 0x21, 0xce]
  const DELTA_ENCODING_FORMAT: Tag := [0x3b, 0x8a, 0xeb, 0x9a]
  const DELTA_ENCODING_INPUT: Tag := [0x4e, 0x08, 0xb9, 0xf1]
  const DELTA_ENCODING_ORIGINAL_HASH: Tag := [0x64, 0x76, 0x0e, 0x1c]
  const DELTA_ENCODING_INPUT_HASH: Tag := [0x3a, 0x0d, 0x13, 0x07]
  const SIGNATURES: Tag := [0xa8, 0x39, 0x36, 0xf1]
  const SIGNATURES_CMS_SIGNATURE: Tag := [0x97, 0x95, 0x49, 0x8f]
  const PAYLOADS: Tag := [0x01, 0xf3, 0x8f, 0xba]
  const PAYLOAD: Tag := [0x49, 0x0c, 0xaf, 0xaf]
  const PAYLOAD_HEADER: Tag := [0x09, 0x59, 0xca, 0x75]
  const PAYLOAD_DATA: Tag := [0x42, 0xfd, 0x64, 0x1a]
  const PAYLOAD_HEADER_BLOCK_ENCODING: Tag := [0x40, 0xed, 0x93, 0x14]
  const BLOCK_ENCODING_HASH_ALGORITHM: Tag := [0x7f, 0x1f, 0x99, 0x4b]
  const BLOCK_ENCODING_DEDUPLICATED: Tag := [0x05, 0x90, 0x29, 0x26]
  const BLOCK_ENCODING_CHUNKER: Tag := [0x55, 0x87, 0x2c, 0xf8]
  const BLOCK_ENCODING_COMPRESSION: Tag := [0x78, 0x32, 0x17, 0xc6]
  const BLOCK_ENCODING_BLOCK_HASHES: Tag := [0x76, 0xb3, 0xd7, 0xa0]
  const BLOCK_ENCODING_BLOCK_SIZES: Tag := [0x27, 0xe5, 0xd3, 0xf2]
  const BLOCK_INDEX: Tag := [0x1a, 0xe5, 0x0c, 0x8e]
  const BLOCK_INDEX_CHUNKER: Tag := [0x5c, 0xdf, 0x21, 0xb0]
  const BLOCK_INDEX_HASH_ALGORITHM: Tag := [0x1d, 0x92, 0xa0, 0x80]
  const BLOCK_INDEX_BLOCK_HASHES: Tag := [0x55, 0xe5, 0x47, 0xd8]
  const BLOCK_INDEX_BLOCK_SIZES: Tag := [0x46, 0x68, 0xc5, 0xba]
  const SIGNED_METADATA_HEADER_HASH: Tag := [0x1f, 0x99, 0x2d, 0xfc]
}

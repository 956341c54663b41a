/** The record decoders of the structure table, field by field. */
module SmbiosRecords {
  import opened Prelude
  import opened SmbiosTable
  import opened SmbiosCursor
  import opened SmbiosInfo

  const STR_MAX := 64

  // ----- Formatted-area fields: a structure too short for a field yields the fallback

  function Text(s: Structure, off: nat): Bytes {
    TextAt(s, off, STR_MAX)
  }

  function FieldU8(s: Structure, off: nat, fallback: u8): u8 {
    if off + 1 > |s.formatted| then fallback else s.formatted[off]
  }

  function FieldU16(s: Structure, off: nat, fallback: u16): u16 {
    if off + 2 > |s.formatted| then fallback else U16(s.formatted[off], s.formatted[off + 1])
  }

  function FieldU32(s: Structure, off: nat, fallback: u32): u32 {
    if off + 4 > |s.formatted| then fallback else FieldU16(s, off, 0) + 0x1_0000 * FieldU16(s, off + 2, 0)
  }

  function FieldU64(s: Structure, off: nat, fallback: u64): u64 {
    if off + 8 > |s.formatted| then fallback else FieldU32(s, off, 0) + 0x1_0000_0000 * FieldU32(s, off + 4, 0)
  }

  // ----- Records

  datatype Bios = Bios(
    vendor: Bytes, version: Bytes, releaseDate: Bytes, romKb: u32, major: u8, minor: u8)

  datatype System = System(
    manufacturer: Bytes, product: Bytes, version: Bytes, serial: Bytes, sku: Bytes,
    family: Bytes, uuidRaw: Option<Bytes>, uuidPresent: bool)

  datatype Baseboard = Baseboard(
    manufacturer: Bytes, product: Bytes, version: Bytes, serial: Bytes, assetTag: Bytes)

  datatype Chassis = Chassis(
    manufacturer: Bytes, typ: u8, hasLock: bool, version: Bytes, serial: Bytes, assetTag: Bytes)

  datatype Processor = Processor(
    handle: u16, socket: Bytes, manufacturer: Bytes, version: Bytes, id: u64,
    maxSpeedMhz: u16, currentSpeedMhz: u16, populated: bool,
    coreCount: u16, coresEnabled: u16, threadCount: u16)

  datatype Memdev = Memdev(
    handle: u16, sizeMb: u64, installed: bool, totalWidthBits: u16, dataWidthBits: u16,
    formFactor: u8, memoryType: u8, speedMts: u16, configuredSpeedMts: u16, rank: u8,
    deviceLocator: Bytes, bankLocator: Bytes, manufacturer: Bytes, serial: Bytes,
    partNumber: Bytes)

  const ZERO_PROCESSOR := Processor(0, [], [], [], 0, 0, 0, false, 0, 0, 0)
  const ZERO_MEMDEV := Memdev(0, 0, false, 0, 0, 0, 0, 0, 0, 0, [], [], [], [], [])

  function DecodeBios(s: Structure): Bios {
    var rom := FieldU8(s, 0x09, 0xFF);
    Bios(Text(s, 0x04), Text(s, 0x05), Text(s, 0x08),
         if rom == 0xFF then 0 else (rom + 1) * 64,
         FieldU8(s, 0x14, 0xFF), FieldU8(s, 0x15, 0xFF))
  }

  function DecodeSystem(s: Structure): System {
    var uuid := if 0x08 + 16 > |s.formatted| then None else Some(s.formatted[0x08..0x18]);
    System(Text(s, 0x04), Text(s, 0x05), Text(s, 0x06), Text(s, 0x07), Text(s, 0x19),
           Text(s, 0x1A), uuid,
           uuid.Some? && (exists b :: b in uuid.value && b != 0) && (exists b :: b in uuid.value && b != 0xFF))
  }

  function DecodeBaseboard(s: Structure): Baseboard {
    Baseboard(Text(s, 0x04), Text(s, 0x05), Text(s, 0x06), Text(s, 0x07), Text(s, 0x08))
  }

  function DecodeChassis(s: Structure): Chassis {
    var raw := FieldU8(s, 0x05, 0x02);
    Chassis(Text(s, 0x04), raw % 0x80, raw >= 0x80, Text(s, 0x06), Text(s, 0x07), Text(s, 0x08))
  }

  /** A byte count of 0xFF escapes to the word-sized count at off2. */
  function Count(s: Structure, off: nat, off2: nat): u16 {
    var n := FieldU8(s, off, 0);
    if n == 0xFF then FieldU16(s, off2, 0) else n
  }

  function DecodeProcessor(s: Structure): Processor {
    Processor(FieldU16(s, 0x02, 0), Text(s, 0x04), Text(s, 0x07), Text(s, 0x10), FieldU64(s, 0x08, 0),
              FieldU16(s, 0x14, 0), FieldU16(s, 0x16, 0), FieldU8(s, 0x18, 0x40) / 0x40 % 2 == 1,
              Count(s, 0x23, 0x2A), Count(s, 0x24, 0x2C), Count(s, 0x25, 0x2E))
  }

  /** The size word in MB, with its escapes: 0 an empty slot, 0xFFFF unknown, 0x7FFF
      the extended dword, bit 15 a size in KB rounded up. */
  function MemSizeMb(raw: u16, ext: u32): u64 {
    if raw == 0 then 0
    else if raw == 0xFFFF then 0xFFFF_FFFF_FFFF_FFFF
    else if raw == 0x7FFF then ext % 0x8000_0000
    else if raw >= 0x8000 then (raw - 0x8000 + 1023) / 1024
    else raw
  }

  /** How a size in MB is stored: in the word if it fits below the escapes, and in the
      extended dword otherwise. */
  function SizeWord(mb: nat): u16 {
    if mb < 0x7FFF then mb else 0x7FFF
  }

  function SizeDword(mb: nat): u32
    requires mb < 0x8000_0000
  {
    if mb < 0x7FFF then 0 else mb
  }

  /** Every size in MB the two fields can hold is read back, whatever the reserved top
      bit of the dword, and sizes in KB are rounded up to whole MB. */
  lemma MemSizeRecovered(mb: nat, kb: nat, reserved: nat)
    requires mb < 0x8000_0000 && kb < 0x7FFF && reserved <= 1
    ensures MemSizeMb(SizeWord(mb), SizeDword(mb) + 0x8000_0000 * reserved) == mb
    ensures var m := MemSizeMb(0x8000 + kb, SizeDword(mb)); 1024 * m >= kb && 1024 * m < kb + 1024
  {
  }

  function DecodeMemdev(s: Structure): Memdev {
    var raw, tw, dw := FieldU16(s, 0x0C, 0), FieldU16(s, 0x08, 0xFFFF), FieldU16(s, 0x0A, 0xFFFF);
    Memdev(FieldU16(s, 0x02, 0), MemSizeMb(raw, FieldU32(s, 0x1C, 0)), raw != 0,
           if tw == 0xFFFF then 0 else tw, if dw == 0xFFFF then 0 else dw,
           FieldU8(s, 0x0E, 0x02), FieldU8(s, 0x12, 0x02),
           FieldU16(s, 0x15, 0), FieldU16(s, 0x20, 0), FieldU8(s, 0x1B, 0) % 0x10,
           Text(s, 0x10), Text(s, 0x11), Text(s, 0x17), Text(s, 0x18), Text(s, 0x1A))
  }

  /** The decoders rewsr_dmi_parse runs. */
  const DMI := Decoders(DecodeBios, DecodeSystem, DecodeBaseboard, DecodeChassis,
                        DecodeProcessor, DecodeMemdev, ZERO_PROCESSOR, ZERO_MEMDEV)

  type DmiInfo = Info<Bios, System, Baseboard, Chassis, Processor, Memdev>

  /** rewsr_dmi_parse with its own decoders, into a new record. */
  method ParseDmi(buf: array?<u8>, len: nat) returns (rc: int, out: DmiInfo)
    requires buf != null ==> len <= buf.Length
    ensures fresh(out) && out.Valid() && out.decode == DMI
    ensures buf == null || len < 6 ==> rc == -EINVAL && out.Holds([])
    ensures buf != null && len >= 6 ==>
      var o := Walk(buf[..len]);
      out.Holds(o.structures) && rc == if o.ok then 0 else -EPROTO
  {
    out := new Info(DMI);
    rc := Parse(buf, len, out);
  }

  /** In the structure a record encodes to, a text field holds the string its byte refers
      to, cut to the field and without trailing spaces; nothing when the reference is 0 or
      dangles, or the body is too short. */
  lemma TextOfEncoded(r: Record, off: nat)
    requires r.Encodable() && off >= 4
    ensures Text(Encode(r), off) ==
      if off - 4 < |r.body| && 1 <= r.body[off - 4] <= |r.strings|
      then FieldText(r.strings[r.body[off - 4] - 1], STR_MAX) else []
  {
    EncodeSetLists(r.strings);
    assert off - 4 < |r.body| ==> Encode(r).formatted[off] == r.body[off - 4];
  }
}

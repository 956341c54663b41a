/** The records of the structure table as the SMBIOS specification lays them out (section 7):
    which bytes carry which field, and that the decoders read every field back. */
module SmbiosLayout {
  import opened Prelude
  import opened SmbiosTable
  import opened SmbiosCursor
  import opened SmbiosInfo
  import opened SmbiosRecords

  // ----- Numbers, lowest byte first

  /** The number n in `width` bytes. */
  function LE(n: nat, width: nat): (b: Bytes)
    ensures |b| == width
  {
    if width == 0 then [] else [n % 0x100] + LE(n / 0x100, width - 1)
  }

  /** The bytes b stand at offset off. */
  ghost predicate At(f: Bytes, off: nat, b: Bytes) {
    off + |b| <= |f| && f[off..off + |b|] == b
  }

  /** The number that `width` bytes from off on spell. */
  ghost function Spelt(f: Bytes, off: nat, width: nat): nat
    requires off + width <= |f|
    decreases width
  {
    if width == 0 then 0 else f[off] + 0x100 * Spelt(f, off + 1, width - 1)
  }

  /** n fits `width` bytes. */
  predicate Fits(n: nat, width: nat) {
    if width == 0 then n == 0 else Fits(n / 0x100, width - 1)
  }

  lemma {:induction false} SpeltIs(f: Bytes, off: nat, width: nat, n: nat)
    requires At(f, off, LE(n, width)) && Fits(n, width)
    ensures Spelt(f, off, width) == n
    decreases width
  {
    if width > 0 {
      var b := LE(n, width);
      assert f[off] == f[off..off + width][0] == b[0];
      assert f[off + 1..off + width] == f[off..off + width][1..] == b[1..];
      SpeltIs(f, off + 1, width - 1, n / 0x100);
    }
  }

  /** A field of one, two, four or eight bytes holds the number encoded there. */
  lemma U8Read(s: Structure, off: nat, n: u8, fallback: u8)
    requires At(s.formatted, off, LE(n, 1))
    ensures FieldU8(s, off, fallback) == n
  {
    SpeltIs(s.formatted, off, 1, n);
  }

  lemma U16Read(s: Structure, off: nat, n: u16, fallback: u16)
    requires At(s.formatted, off, LE(n, 2))
    ensures FieldU16(s, off, fallback) == n
  {
    assert Fits(n, 2);
    SpeltIs(s.formatted, off, 2, n);
    SpeltTwo(s, off);
  }

  lemma SpeltTwo(s: Structure, off: nat)
    requires off + 2 <= |s.formatted|
    ensures Spelt(s.formatted, off, 2) == FieldU16(s, off, 0)
  {
  }

  lemma SpeltFour(s: Structure, off: nat)
    requires off + 4 <= |s.formatted|
    ensures Spelt(s.formatted, off, 4) == FieldU32(s, off, 0)
  {
    SpeltTwo(s, off + 2);
  }

  lemma U32Read(s: Structure, off: nat, n: u32, fallback: u32)
    requires At(s.formatted, off, LE(n, 4))
    ensures FieldU32(s, off, fallback) == n
  {
    FitsFour(n);
    SpeltIs(s.formatted, off, 4, n);
    SpeltFour(s, off);
  }

  lemma U64Read(s: Structure, off: nat, n: u64, fallback: u64)
    requires At(s.formatted, off, LE(n, 8))
    ensures FieldU64(s, off, fallback) == n
  {
    FitsEight(n);
    SpeltIs(s.formatted, off, 8, n);
    SpeltFour(s, off);
    SpeltFour(s, off + 4);
    SpeltHalves(s.formatted, off);
  }

  lemma FitsFour(n: u32)
    ensures Fits(n, 4)
  {
    var a := n / 0x100 / 0x100;
    assert Fits(a, 2) && Fits(n / 0x100, 3);
  }

  lemma FitsEight(n: u64)
    ensures Fits(n, 8)
  {
    var a := n / 0x100;
    var b := a / 0x100;
    var c := b / 0x100;
    var d := c / 0x100;
    assert d < 0x1_0000_0000;
    FitsFour(d);
    assert Fits(c, 5) && Fits(b, 6) && Fits(a, 7);
  }

  lemma SpeltHalves(f: Bytes, off: nat)
    requires off + 8 <= |f|
    ensures Spelt(f, off, 8) == Spelt(f, off, 4) + 0x1_0000_0000 * Spelt(f, off + 4, 4)
  {
  }

  // ----- Texts and records

  /** Byte off of a structure refers to the given text, one that its field can hold; or to
      none, and the text is empty. */
  ghost predicate Refers(r: Record, off: nat, text: Bytes)
    requires r.Encodable()
  {
    var f := Encode(r).formatted;
    && 4 <= off < |f|
    && if 1 <= f[off] <= |r.strings|
       then r.strings[f[off] - 1] == text && |text| < 64 && (text == [] || text[|text| - 1] != ' ' as int)
       else text == []
  }

  lemma TextRead(r: Record, off: nat, text: Bytes)
    requires r.Encodable() && Refers(r, off, text)
    ensures Text(Encode(r), off) == text
  {
    TextOfEncoded(r, off);
    assert Encode(r).formatted[off] == r.body[off - 4];
    if 1 <= r.body[off - 4] <= |r.strings| {
      FieldKeepsExactly(text, 64);
    }
  }

  lemma HandleRead(r: Record)
    requires r.Encodable()
    ensures FieldU16(Encode(r), 0x02, 0) == r.handle
  {
  }

  // ----- Memory devices (section 7.18)

  /** The size word, its extension with the reserved top bit, and what they mean. */
  ghost predicate SizeLaidOut(f: Bytes, mb: u64, installed: bool, reserved: nat) {
    && reserved <= 1 && mb < 0x8000_0000 && (installed <==> mb != 0)
    && At(f, 0x0C, LE(SizeWord(mb), 2)) && At(f, 0x1C, LE(SizeDword(mb) + 0x8000_0000 * reserved, 4))
  }

  /** A width of 0xFFFF, an unknown one, is reported as none. */
  ghost predicate WidthLaidOut(f: Bytes, off: nat, width: u16) {
    (width != 0xFFFF && At(f, off, LE(width, 2))) || (width == 0 && At(f, off, LE(0xFFFF, 2)))
  }

  ghost predicate MemdevNumbers(f: Bytes, m: Memdev, reserved: nat, attributes: nat) {
    && SizeLaidOut(f, m.sizeMb, m.installed, reserved)
    && WidthLaidOut(f, 0x08, m.totalWidthBits) && WidthLaidOut(f, 0x0A, m.dataWidthBits)
    && At(f, 0x0E, [m.formFactor]) && At(f, 0x12, [m.memoryType])
    && At(f, 0x15, LE(m.speedMts, 2)) && At(f, 0x20, LE(m.configuredSpeedMts, 2))
    && m.rank < 0x10 && attributes < 0x10 && At(f, 0x1B, [m.rank + 0x10 * attributes])
  }

  ghost predicate MemdevTexts(r: Record, m: Memdev)
    requires r.Encodable()
  {
    && Refers(r, 0x10, m.deviceLocator) && Refers(r, 0x11, m.bankLocator) && Refers(r, 0x17, m.manufacturer)
    && Refers(r, 0x18, m.serial) && Refers(r, 0x1A, m.partNumber)
  }

  lemma ByteRead(s: Structure, off: nat, b: u8, fallback: u8)
    requires At(s.formatted, off, [b])
    ensures FieldU8(s, off, fallback) == b
  {
    assert s.formatted[off..off + 1][0] == b;
  }

  lemma SizeRead(s: Structure, mb: u64, installed: bool, reserved: nat)
    requires SizeLaidOut(s.formatted, mb, installed, reserved)
    ensures MemSizeMb(FieldU16(s, 0x0C, 0), FieldU32(s, 0x1C, 0)) == mb
    ensures FieldU16(s, 0x0C, 0) != 0 <==> installed
  {
    U16Read(s, 0x0C, SizeWord(mb), 0);
    U32Read(s, 0x1C, SizeDword(mb) + 0x8000_0000 * reserved, 0);
    MemSizeRecovered(mb, 0, reserved);
  }

  lemma WidthRead(s: Structure, off: nat, width: u16)
    requires WidthLaidOut(s.formatted, off, width)
    ensures var w := FieldU16(s, off, 0xFFFF); (if w == 0xFFFF then 0 else w) == width
  {
    if At(s.formatted, off, LE(width, 2)) && width != 0xFFFF {
      U16Read(s, off, width, 0xFFFF);
    } else {
      U16Read(s, off, 0xFFFF, 0xFFFF);
    }
  }

  lemma MemdevSizesRead(s: Structure, m: Memdev, reserved: nat, attributes: nat)
    requires MemdevNumbers(s.formatted, m, reserved, attributes)
    ensures var d := DecodeMemdev(s);
      && d.sizeMb == m.sizeMb && d.installed == m.installed
      && d.totalWidthBits == m.totalWidthBits && d.dataWidthBits == m.dataWidthBits
  {
    SizeRead(s, m.sizeMb, m.installed, reserved);
    WidthRead(s, 0x08, m.totalWidthBits);
    WidthRead(s, 0x0A, m.dataWidthBits);
  }

  lemma MemdevSpeedsRead(s: Structure, m: Memdev, reserved: nat, attributes: nat)
    requires MemdevNumbers(s.formatted, m, reserved, attributes)
    ensures FieldU16(s, 0x15, 0) == m.speedMts && FieldU16(s, 0x20, 0) == m.configuredSpeedMts
  {
    U16Read(s, 0x15, m.speedMts, 0);
    U16Read(s, 0x20, m.configuredSpeedMts, 0);
  }

  lemma MemdevBytesRead(s: Structure, m: Memdev, reserved: nat, attributes: nat)
    requires MemdevNumbers(s.formatted, m, reserved, attributes)
    ensures FieldU8(s, 0x0E, 0x02) == m.formFactor && FieldU8(s, 0x12, 0x02) == m.memoryType
    ensures FieldU8(s, 0x1B, 0) % 0x10 == m.rank
  {
    ByteRead(s, 0x0E, m.formFactor, 0x02);
    ByteRead(s, 0x12, m.memoryType, 0x02);
    ByteRead(s, 0x1B, m.rank + 0x10 * attributes, 0);
  }

  lemma MemdevTextsRead(r: Record, m: Memdev)
    requires r.Encodable() && MemdevTexts(r, m)
    ensures var s := Encode(r);
      && Text(s, 0x10) == m.deviceLocator && Text(s, 0x11) == m.bankLocator
      && Text(s, 0x17) == m.manufacturer && Text(s, 0x18) == m.serial && Text(s, 0x1A) == m.partNumber
  {
    TextRead(r, 0x10, m.deviceLocator);
    TextRead(r, 0x11, m.bankLocator);
    TextRead(r, 0x17, m.manufacturer);
    TextRead(r, 0x18, m.serial);
    TextRead(r, 0x1A, m.partNumber);
  }

  /** A memory device is read back from its bytes, field by field. */
  lemma MemdevRead(r: Record, m: Memdev, reserved: nat, attributes: nat)
    requires r.Encodable() && m.handle == r.handle
    requires MemdevNumbers(Encode(r).formatted, m, reserved, attributes) && MemdevTexts(r, m)
    ensures DecodeMemdev(Encode(r)) == m
  {
    HandleRead(r);
    MemdevSizesRead(Encode(r), m, reserved, attributes);
    MemdevSpeedsRead(Encode(r), m, reserved, attributes);
    MemdevBytesRead(Encode(r), m, reserved, attributes);
    MemdevTextsRead(r, m);
  }

  /** The sizes that are not whole MB: KB are rounded up, and 0xFFFF is the largest
      number. */
  lemma OddSizesRead(s: Structure, kb: nat)
    ensures kb < 0x7FFF && At(s.formatted, 0x0C, LE(0x8000 + kb, 2)) ==>
      DecodeMemdev(s).sizeMb == (kb + 1023) / 1024 && DecodeMemdev(s).installed
    ensures At(s.formatted, 0x0C, LE(0xFFFF, 2)) ==>
      DecodeMemdev(s).sizeMb == 0xFFFF_FFFF_FFFF_FFFF && DecodeMemdev(s).installed
  {
    if kb < 0x7FFF && At(s.formatted, 0x0C, LE(0x8000 + kb, 2)) {
      U16Read(s, 0x0C, 0x8000 + kb, 0);
    }
    if At(s.formatted, 0x0C, LE(0xFFFF, 2)) {
      U16Read(s, 0x0C, 0xFFFF, 0);
    }
  }

  // ----- Processors (section 7.5)

  /** A count below 255 stands in its byte; 0xFF there sends to the word at off2. */
  ghost predicate CountLaidOut(f: Bytes, off: nat, off2: nat, n: u16) {
    if n < 0xFF then At(f, off, [n]) else At(f, off, [0xFF]) && At(f, off2, LE(n, 2))
  }

  ghost predicate ProcessorLaidOut(r: Record, p: Processor, low: nat, high: nat)
    requires r.Encodable()
  {
    var f := Encode(r).formatted;
    && p.handle == r.handle && At(f, 0x08, LE(p.id, 8))
    && At(f, 0x14, LE(p.maxSpeedMhz, 2)) && At(f, 0x16, LE(p.currentSpeedMhz, 2))
    && low < 0x40 && high <= 1 && At(f, 0x18, [low + (if p.populated then 0x40 else 0) + 0x80 * high])
    && CountLaidOut(f, 0x23, 0x2A, p.coreCount) && CountLaidOut(f, 0x24, 0x2C, p.coresEnabled)
    && CountLaidOut(f, 0x25, 0x2E, p.threadCount)
    && Refers(r, 0x04, p.socket) && Refers(r, 0x07, p.manufacturer) && Refers(r, 0x10, p.version)
  }

  lemma CountRead(s: Structure, off: nat, off2: nat, n: u16)
    requires CountLaidOut(s.formatted, off, off2, n)
    ensures Count(s, off, off2) == n
  {
    ByteRead(s, off, if n < 0xFF then n else 0xFF, 0);
    if n >= 0xFF {
      U16Read(s, off2, n, 0);
    }
  }

  lemma BitSix(low: nat, populated: bool, high: nat)
    requires low < 0x40 && high <= 1
    ensures (low + (if populated then 0x40 else 0) + 0x80 * high) / 0x40 % 2 == 1 <==> populated
  {
  }

  /** A processor is read back from its bytes, whatever the other bits of its status. */
  lemma ProcessorRead(r: Record, p: Processor, low: nat, high: nat)
    requires r.Encodable() && ProcessorLaidOut(r, p, low, high)
    ensures DecodeProcessor(Encode(r)) == p
  {
    var s := Encode(r);
    HandleRead(r);
    U64Read(s, 0x08, p.id, 0);
    U16Read(s, 0x14, p.maxSpeedMhz, 0);
    U16Read(s, 0x16, p.currentSpeedMhz, 0);
    ByteRead(s, 0x18, low + (if p.populated then 0x40 else 0) + 0x80 * high, 0x40);
    BitSix(low, p.populated, high);
    CountRead(s, 0x23, 0x2A, p.coreCount);
    CountRead(s, 0x24, 0x2C, p.coresEnabled);
    CountRead(s, 0x25, 0x2E, p.threadCount);
    TextRead(r, 0x04, p.socket);
    TextRead(r, 0x07, p.manufacturer);
    TextRead(r, 0x10, p.version);
  }

  // ----- The other records (sections 7.1 to 7.4)

  /** The ROM size in units of 64 KB, less one; 0xFF says that it is elsewhere. */
  ghost predicate BiosLaidOut(r: Record, b: Bios)
    requires r.Encodable()
  {
    var f := Encode(r).formatted;
    && (if b.romKb == 0 then At(f, 0x09, [0xFF])
        else b.romKb % 64 == 0 && b.romKb <= 64 * 0xFF && At(f, 0x09, [b.romKb / 64 - 1]))
    && At(f, 0x14, [b.major]) && At(f, 0x15, [b.minor])
    && Refers(r, 0x04, b.vendor) && Refers(r, 0x05, b.version) && Refers(r, 0x08, b.releaseDate)
  }

  lemma BiosRead(r: Record, b: Bios)
    requires r.Encodable() && BiosLaidOut(r, b)
    ensures DecodeBios(Encode(r)) == b
  {
    var s := Encode(r);
    ByteRead(s, 0x09, if b.romKb == 0 then 0xFF else b.romKb / 64 - 1, 0xFF);
    ByteRead(s, 0x14, b.major, 0xFF);
    ByteRead(s, 0x15, b.minor, 0xFF);
    TextRead(r, 0x04, b.vendor);
    TextRead(r, 0x05, b.version);
    TextRead(r, 0x08, b.releaseDate);
  }

  /** The UUID is one unless its bytes are all 0 or all 0xFF. */
  ghost predicate SystemLaidOut(r: Record, y: System, uuid: Bytes)
    requires r.Encodable()
  {
    && |uuid| == 16 && At(Encode(r).formatted, 0x08, uuid) && y.uuidRaw == Some(uuid)
    && (y.uuidPresent <==> uuid != seq(16, _ => 0) && uuid != seq(16, _ => 0xFF))
    && Refers(r, 0x04, y.manufacturer) && Refers(r, 0x05, y.product) && Refers(r, 0x06, y.version)
    && Refers(r, 0x07, y.serial) && Refers(r, 0x19, y.sku) && Refers(r, 0x1A, y.family)
  }

  lemma SystemRead(r: Record, y: System, uuid: Bytes)
    requires r.Encodable() && SystemLaidOut(r, y, uuid)
    ensures DecodeSystem(Encode(r)) == y
  {
    AllAre(uuid, 0);
    AllAre(uuid, 0xFF);
    TextRead(r, 0x04, y.manufacturer);
    TextRead(r, 0x05, y.product);
    TextRead(r, 0x06, y.version);
    TextRead(r, 0x07, y.serial);
    TextRead(r, 0x19, y.sku);
    TextRead(r, 0x1A, y.family);
  }

  lemma AllAre(bs: Bytes, v: u8)
    ensures bs != seq(|bs|, _ => v) <==> exists b :: b in bs && b != v
  {
    if bs != seq(|bs|, _ => v) {
      var i :| 0 <= i < |bs| && bs[i] != v;
      assert bs[i] in bs;
    }
  }

  ghost predicate BaseboardLaidOut(r: Record, d: Baseboard)
    requires r.Encodable()
  {
    && Refers(r, 0x04, d.manufacturer) && Refers(r, 0x05, d.product) && Refers(r, 0x06, d.version)
    && Refers(r, 0x07, d.serial) && Refers(r, 0x08, d.assetTag)
  }

  lemma BaseboardRead(r: Record, d: Baseboard)
    requires r.Encodable() && BaseboardLaidOut(r, d)
    ensures DecodeBaseboard(Encode(r)) == d
  {
    TextRead(r, 0x04, d.manufacturer);
    TextRead(r, 0x05, d.product);
    TextRead(r, 0x06, d.version);
    TextRead(r, 0x07, d.serial);
    TextRead(r, 0x08, d.assetTag);
  }

  /** The top bit of the type says whether there is a lock. */
  ghost predicate ChassisLaidOut(r: Record, c: Chassis)
    requires r.Encodable()
  {
    && c.typ < 0x80 && At(Encode(r).formatted, 0x05, [c.typ + if c.hasLock then 0x80 else 0])
    && Refers(r, 0x04, c.manufacturer) && Refers(r, 0x06, c.version) && Refers(r, 0x07, c.serial)
    && Refers(r, 0x08, c.assetTag)
  }

  lemma LockRead(s: Structure, typ: u8, hasLock: bool)
    requires typ < 0x80 && At(s.formatted, 0x05, [typ + if hasLock then 0x80 else 0])
    ensures var raw := FieldU8(s, 0x05, 0x02); raw % 0x80 == typ && (raw >= 0x80 <==> hasLock)
  {
    ByteRead(s, 0x05, typ + if hasLock then 0x80 else 0, 0x02);
  }

  lemma ChassisRead(r: Record, c: Chassis)
    requires r.Encodable() && ChassisLaidOut(r, c)
    ensures DecodeChassis(Encode(r)) == c
  {
    LockRead(Encode(r), c.typ, c.hasLock);
    TextRead(r, 0x04, c.manufacturer);
    TextRead(r, 0x06, c.version);
    TextRead(r, 0x07, c.serial);
    TextRead(r, 0x08, c.assetTag);
  }

  /** What is reported of structures that end behind their header. */
  lemma BareRecords(s: Structure)
    requires |s.formatted| == 4
    ensures DecodeMemdev(s) == Memdev(s.Handle(), 0, false, 0, 0, 2, 2, 0, 0, 0, [], [], [], [], [])
    ensures DecodeProcessor(s) == Processor(s.Handle(), [], [], [], 0, 0, 0, true, 0, 0, 0)
    ensures DecodeBios(s) == Bios([], [], [], 0, 0xFF, 0xFF)
    ensures DecodeSystem(s) == System([], [], [], [], [], [], None, false)
    ensures DecodeBaseboard(s) == Baseboard([], [], [], [], [])
    ensures DecodeChassis(s) == Chassis([], 2, false, [], [], [])
  {
  }

  // ----- A whole table

  /** The first structure of a type as decoded, if there is one. */
  ghost predicate IsFirst<R>(held: Option<R>, ss: seq<Structure>, decode: Structure -> R) {
    held == if ss == [] then None else Some(decode(ss[0]))
  }

  /** What a parse holds of a walk's structures: the first of each of the types 0 to 3, up to
      16 of type 4 and up to 192 of type 17 in table order, the other slots zero, and how many
      found no room. */
  lemma TableHeld(info: DmiInfo, ss: seq<Structure>)
    requires info.Valid() && info.decode == DMI && info.Holds(ss)
    ensures info.structureCount == |ss|
    ensures IsFirst(info.bios, OfType(ss, 0), DecodeBios) && IsFirst(info.system, OfType(ss, 1), DecodeSystem)
    ensures IsFirst(info.baseboard, OfType(ss, 2), DecodeBaseboard)
    ensures IsFirst(info.chassis, OfType(ss, 3), DecodeChassis)
    ensures var n := |OfType(ss, 4)|;
      && info.processorCount == (if n <= 16 then n else 16) && info.processorsDropped == n - info.processorCount
    ensures forall i :: 0 <= i < info.processorCount ==> info.processors[i] == DecodeProcessor(OfType(ss, 4)[i])
    ensures forall i :: info.processorCount <= i < 16 ==>
      info.processors[i] == Processor(0, [], [], [], 0, 0, 0, false, 0, 0, 0)
    ensures var n := |OfType(ss, 17)|;
      && info.memdevCount == (if n <= 192 then n else 192) && info.memdevsDropped == n - info.memdevCount
    ensures forall i :: 0 <= i < info.memdevCount ==> info.memdevs[i] == DecodeMemdev(OfType(ss, 17)[i])
    ensures forall i :: info.memdevCount <= i < 192 ==>
      info.memdevs[i] == Memdev(0, 0, false, 0, 0, 0, 0, 0, 0, 0, [], [], [], [], [])
  {
  }
}

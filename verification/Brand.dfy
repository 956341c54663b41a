/** The processor brand string: 48 register bytes, padded with spaces at either end and
    with NULs behind. */
module Brand {
  import opened Prelude
  import opened SmbiosTable
  import opened SmbiosCursor

  const SPACE: u8 := 0x20
  const SIZE := 48

  datatype Regs = Regs(eax: u32, ebx: u32, ecx: u32, edx: u32)

  /** put_le32. */
  function Le32(v: u32): (b: Bytes)
    ensures |b| == 4
  {
    [v % 0x100, v / 0x100 % 0x100, v / 0x1_0000 % 0x100, v / 0x100_0000]
  }

  function FromLe32(b: Bytes): u32
    requires |b| == 4
  {
    U16(b[0], b[1]) + 0x1_0000 * U16(b[2], b[3])
  }

  function RegBytes(r: Regs): (b: Bytes)
    ensures |b| == 16
  {
    Le32(r.eax) + Le32(r.ebx) + Le32(r.ecx) + Le32(r.edx)
  }

  /** The bytes of the three leaves. */
  function Raw(brand: seq<Regs>): (b: Bytes)
    requires |brand| == 3
    ensures |b| == SIZE
  {
    RegBytes(brand[0]) + RegBytes(brand[1]) + RegBytes(brand[2])
  }

  /** Past the spaces at k. */
  function SpacesEnd(raw: Bytes, k: nat): (e: nat)
    requires k <= |raw|
    ensures k <= e <= |raw|
    decreases |raw| - k
  {
    if k < |raw| && raw[k] == SPACE then SpacesEnd(raw, k + 1) else k
  }

  /** What stands between the leading spaces and the first NUL behind them, without
      trailing spaces. */
  function BrandText(raw: Bytes): Bytes {
    var start := SpacesEnd(raw, 0);
    TrimTrailingSpaces(raw[start..RunEnd(raw, start)])
  }

  // ----- The renderer

  method BrandString(brand: seq<Regs>, out: array<u8>)
    requires |brand| == 3 && out.Length == SIZE + 1
    modifies out
    ensures FieldHolds(out[..], old(out[..]), SIZE + 1, BrandText(Raw(brand)))
  {
    var raw := new u8[SIZE];
    PutRegs(raw, brand);
    var start := SkipSpaces(raw);
    var lastNonspace := FindLast(raw, start);
    TakeText(raw, start, lastNonspace, out);
  }

  method TakeText(raw: array<u8>, start: nat, lastNonspace: nat, out: array<u8>)
    requires start <= lastNonspace <= raw.Length < out.Length && raw != out
    modifies out
    ensures FieldHolds(out[..], old(out[..]), out.Length, old(raw[start..lastNonspace]))
  {
    var n := if lastNonspace > start then lastNonspace - start else 0;
    ghost var text := raw[start..lastNonspace];
    MoveBytes(out, raw, start, n);
    out[n] := 0;
    assert out[..n + 1] == text + [0];
  }

  method PutRegs(raw: array<u8>, brand: seq<Regs>)
    requires raw.Length == SIZE && |brand| == 3
    modifies raw
    ensures raw[..] == Raw(brand)
  {
    var i := 0;
    while i < 3
      invariant 0 <= i <= 3
      invariant raw[..16 * i] == Raw(brand)[..16 * i]
    {
      PutLeaf(raw, 16 * i, brand[i]);
      RawAt(brand, i);
      i := i + 1;
    }
    assert raw[..48] == raw[..] && Raw(brand)[..48] == Raw(brand);
  }

  lemma RawAt(brand: seq<Regs>, i: nat)
    requires |brand| == 3 && i < 3
    ensures Raw(brand)[..16 * (i + 1)] == Raw(brand)[..16 * i] + RegBytes(brand[i])
  {
    if i == 0 {
      assert Raw(brand)[..16] == RegBytes(brand[0]);
    } else if i == 1 {
      assert Raw(brand)[16..32] == RegBytes(brand[1]);
      assert Raw(brand)[..32] == Raw(brand)[..16] + Raw(brand)[16..32];
    } else {
      assert Raw(brand)[32..48] == RegBytes(brand[2]);
    }
  }

  method PutLeaf(raw: array<u8>, at: nat, r: Regs)
    requires at + 16 <= raw.Length
    modifies raw
    ensures raw[..at + 16] == old(raw[..at]) + RegBytes(r)
  {
    PutLe32(raw, at, r.eax);
    PutLe32(raw, at + 4, r.ebx);
    PutLe32(raw, at + 8, r.ecx);
    PutLe32(raw, at + 12, r.edx);
  }

  method PutLe32(raw: array<u8>, at: nat, v: u32)
    requires at + 4 <= raw.Length
    modifies raw
    ensures raw[..at + 4] == old(raw[..at]) + Le32(v)
  {
    raw[at], raw[at + 1] := v % 0x100, v / 0x100 % 0x100;
    raw[at + 2], raw[at + 3] := v / 0x1_0000 % 0x100, v / 0x100_0000;
  }

  method SkipSpaces(raw: array<u8>) returns (start: nat)
    ensures start == SpacesEnd(raw[..], 0)
  {
    start := 0;
    while start < raw.Length && raw[start] == SPACE
      invariant start <= raw.Length && SpacesEnd(raw[..], start) == SpacesEnd(raw[..], 0)
    {
      start := start + 1;
    }
  }

  /** One pass to the first NUL that remembers where the last other byte than a space ended. */
  method FindLast(raw: array<u8>, start: nat) returns (last: nat)
    requires start <= raw.Length
    ensures start <= last <= raw.Length
    ensures raw[start..last] == TrimTrailingSpaces(raw[start..RunEnd(raw[..], start)])
  {
    ghost var r := raw[..];
    var end := start;
    last := start;
    while end < raw.Length && raw[end] != 0
      invariant start <= last <= end <= raw.Length
      invariant RunEnd(r, end) == RunEnd(r, start)
      invariant r[start..last] == TrimTrailingSpaces(r[start..end])
    {
      TrimNext(r, start, end);
      if raw[end] != SPACE {
        last := end + 1;
      }
      end := end + 1;
    }
  }

  lemma TrimNext(r: Bytes, start: nat, end: nat)
    requires start <= end < |r|
    ensures TrimTrailingSpaces(r[start..end + 1]) ==
      if r[end] == SPACE then TrimTrailingSpaces(r[start..end]) else r[start..end + 1]
  {
    assert r[start..end + 1][..end - start] == r[start..end];
  }

  // ----- Any padding is taken off

  function Fill(n: nat, b: u8): Bytes {
    seq(n, _ => b)
  }

  /** A brand's bytes: spaces, the text, spaces, NULs. */
  function Padded(lead: nat, text: Bytes, trail: nat, nuls: nat): Bytes {
    Fill(lead, 0x20) + (text + (Fill(trail, 0x20) + Fill(nuls, 0)))
  }

  ghost predicate BrandName(text: Bytes) {
    0 !in text && (text != [] ==> text[0] != 0x20 && text[|text| - 1] != 0x20)
  }

  lemma {:induction false} SpacesEndIs(raw: Bytes, k: nat, e: nat)
    requires k <= e <= |raw| && (forall i :: k <= i < e ==> raw[i] == SPACE)
    requires e < |raw| ==> raw[e] != SPACE
    ensures SpacesEnd(raw, k) == e
    decreases e - k
  {
    if k < e {
      SpacesEndIs(raw, k + 1, e);
    }
  }

  lemma {:induction false} TrimSpaces(text: Bytes, n: nat)
    requires text == [] || text[|text| - 1] != SPACE
    ensures TrimTrailingSpaces(text + Fill(n, SPACE)) == text
  {
    var t := text + Fill(n, SPACE);
    if n == 0 {
      assert t == text;
    } else {
      assert t[..|t| - 1] == text + Fill(n - 1, SPACE);
      TrimSpaces(text, n - 1);
    }
  }

  /** However a brand is padded, its text is recovered. */
  lemma PaddingRemoved(lead: nat, text: Bytes, trail: nat, nuls: nat)
    requires BrandName(text)
    ensures BrandText(Padded(lead, text, trail, nuls)) == text
  {
    var raw := Padded(lead, text, trail, nuls);
    var start := if text == [] then lead + trail else lead;
    var end := lead + |text| + trail;
    assert forall i :: 0 <= i < |text| ==> raw[lead + i] == text[i] && text[i] in text;
    assert forall i :: 0 <= i < lead ==> raw[i] == SPACE;
    assert forall i :: lead + |text| <= i < end ==> raw[i] == SPACE;
    assert forall i :: end <= i < |raw| ==> raw[i] == 0;
    SpacesEndIs(raw, 0, start);
    forall i | start <= i < end ensures raw[i] != 0 {
      if i < lead + |text| {
        assert raw[lead + (i - lead)] == text[i - lead];
      }
    }
    RunEndIs(raw, start, end);
    if text == [] {
      assert raw[start..end] == [];
    } else {
      assert raw[start..end] == text + Fill(trail, SPACE);
      TrimSpaces(text, trail);
    }
  }

  /** Registers that hold the given bytes. */
  function Pack(b: Bytes): Regs
    requires |b| == 16
  {
    Regs(FromLe32(b[..4]), FromLe32(b[4..8]), FromLe32(b[8..12]), FromLe32(b[12..]))
  }

  lemma Le32Inverse(b: Bytes)
    requires |b| == 4
    ensures Le32(FromLe32(b)) == b
  {
    Le32Bytes(b[0], b[1], b[2], b[3]);
  }

  lemma Le32Bytes(b0: nat, b1: nat, b2: nat, b3: nat)
    requires b0 < 0x100 && b1 < 0x100 && b2 < 0x100 && b3 < 0x100
    ensures Le32(b0 + 0x100 * b1 + 0x1_0000 * (b2 + 0x100 * b3)) == [b0, b1, b2, b3]
  {
    var v := b0 + 0x100 * b1 + 0x1_0000 * (b2 + 0x100 * b3);
    assert v / 0x100 == b1 + 0x100 * (b2 + 0x100 * b3);
    assert v / 0x1_0000 == b2 + 0x100 * b3;
  }

  lemma RegBytesInverse(b: Bytes)
    requires |b| == 16
    ensures RegBytes(Pack(b)) == b
  {
    Le32Inverse(b[..4]);
    Le32Inverse(b[4..8]);
    Le32Inverse(b[8..12]);
    Le32Inverse(b[12..]);
  }

  /** Every brand that fits 48 bytes comes back from the registers that carry it. */
  lemma BrandRecovered(lead: nat, text: Bytes, trail: nat, nuls: nat)
    requires BrandName(text) && lead + |text| + trail + nuls == SIZE
    ensures var b := Padded(lead, text, trail, nuls);
      |b| == SIZE && BrandText(Raw([Pack(b[..16]), Pack(b[16..32]), Pack(b[32..])])) == text
  {
    var b := Padded(lead, text, trail, nuls);
    RegBytesInverse(b[..16]);
    RegBytesInverse(b[16..32]);
    RegBytesInverse(b[32..]);
    assert b[..16] + b[16..32] + b[32..] == b;
    PaddingRemoved(lead, text, trail, nuls);
  }
}

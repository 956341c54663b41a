# Verified model of the hardware inventory's parsers, merges and rollups

This project models the parts of the inventory system in which a byte-level or
step-by-step program has to agree with a simple meaning on every input, and proves that
it does.

- **SMBIOS tables** (`SmbiosTable`, `SmbiosCursor`, `SmbiosInfo`, `SmbiosRecords`,
  `SmbiosLayout`). The walk over an untrusted structure table (SMBIOS specification,
  section 6.1) is a cursor class over an array. What one step finds is the function `Next`, what a whole walk yields
  is `Walk`, and both are related to an independent description: bytes are accepted with
  given structures if and only if those structures tile them (`WalkAcceptsExactly`). An
  encoder is written as a specification and shown to be inverted by the walk. The aggregate
  decode is a class with the source's bounded tables and drop counters, and each record
  decoder is shown to read back every field from the bytes the specification gives it.
- **CPU lists** (`CpuBits`, `CpuList`, `CpuListLaws`, `CpuListFaults`, `CpuListGo`). The C
  parser that fills a word-packed bitmap, against the union of the listed ranges, with the
  error for each fault, and Go's counter of the same texts, against the C one.
- **Pointers into growing slices** (`NumaRun`, `Numa`, `NumaPrinted`, `Bond`,
  `BondPrinted`). `numactl --hardware` and bonding files are parsed through pointers into a slice that `append` may move. Slices
  here are explicit backing arrays with a length; the growth policy of `append` is a
  parameter. A write through a pointer taken before the slice moved is lost, and the model
  says exactly when that shows. The texts the two programs print are written out as
  specifications, and parsing them gives back what was printed.
- **Renderers and text readers** (`NameList`, `LinkModes`, `CpuFlags`, `Brand`, `Topology`,
  `Modalias`, `Lspci`, `GoStrings`, `GoInt`, `Decimal`). Truncating renderers in the style of
  `snprintf`, the modalias parser with the kernel's format, the `lspci -mm` tokenizer, and
  the parts of Go's `strings`, `strconv` and `int` that they rest on.
- **Facts and fleet** (`FactsMerge`, `FactsLaws`, `FactsInfer`, `FactsBuilt`, `Sorting`,
  `Counting`, `Fleet`, `FleetLaws`, `FleetStep`). The merge of any list of collector results,
  capability and health inference, the fleet summary and the capability query, and the laws
  that connect them.
- **Counters** (`Msr`). Wrapping time-stamp and energy counters over whole runs of readings.

## What turned out not to hold as promised

For each of these a lemma gives an input on which it fails, and another a condition on the
inputs that says exactly when the code does what is wanted.

- The CPU count of `rewsr_parse_cpulist` is 32 bits wide: the full list counts as 0
  (`FullListCountsAsZero`). It is right if and only if the list leaves out some 32-bit
  number (`CountIsExactUnlessFull`).
- Two accepted CPU lists joined with a comma need not be accepted (`JoinCanFail`). They are
  unless one of them is blank or the blanks before the second's first digit hold a line
  break (`JoinLists`).
- Go's `countCPUList` counts a text of nothing but blanks as one CPU (`BlankCount`). On the
  texts the C parser accepts it is the total width of the ranges if and only if the text is
  not such a text and the width fits an int (`GoCountExactly`).
- A line for an earlier NUMA node after later nodes were appended may be written to a stale
  array (`InterleavedLosesAWrite`). A sequence of lines is read faithfully whatever its
  values if and only if, for every node and attribute, the last line that sets it comes
  while the slice still has the capacity it had when the node was appended, which the ids
  alone decide (`FaithfulExactly`); contiguous lines always are (`ContiguousIsFaithful`).
- A truncated list can skip a name and then begin with a space (`LeadingSpaceShows`): if and
  only if the first name alone does not fit and a later one, with its space, does
  (`LeadingSpaceExactly`).
- The merge is not associative on the joined source list (`SourceNotAssociative`). It is if
  and only if one of the three is empty, or the third is a part of the second already, or
  neither the second nor the third is a part of the first (`SourceAssociativeExactly`,
  `MergeAssociativeExactly`).
- Capability counts and the capability query can differ (`CountsCanDiffer`). They agree if
  and only if no server lists a capability twice (`CountsAgreeExactly`).
- Ports times speed need not add up to the total bandwidth (`BandwidthCanDiffer`). While the
  total does not wrap they do if and only if no port reports a negative speed
  (`BandwidthIsConservedExactly`).
- The comment in `rewsr_cpuid_topology_decode` promises the count of the outermost level;
  the code keeps the largest count (`InnerLevelKept`). The model follows the code, and the
  two are the same if and only if no inner level reports more (`OutermostExactly`).

## Model

| member | source | states |
|---|---|---|
| SmbiosTable.SetLengthSound | cprobe/dmi/rewsr_dmi.c:72-101 | the scan ends at the first double NUL, or else at a lone NUL in the very last byte; without either there is none |
| SmbiosTable.NextSound | cprobe/dmi/rewsr_dmi.c:43-115 | a produced structure and what is left are the bytes looked at; it goes on exactly behind a closed set that is not of type 127 |
| SmbiosTable.WalkTiles | cprobe/dmi/rewsr_dmi.c:43-115 | on arbitrary bytes, accepted or not, the structures tile the bytes consumed, every string set ends in a NUL and only the last may be one terminator short |
| SmbiosTable.WalkPrefix | cprobe/dmi/rewsr_dmi.c:43-115 | complete structures at the front are walked as they stand, whatever follows them |
| SmbiosTable.WalkAcceptsExactly | cprobe/dmi/rewsr_dmi.c:43-115 | a table is accepted with given structures and leftover if and only if they tile it |
| SmbiosTable.StructureCountBound | cprobe/dmi/rewsr_dmi.c:48-101 | six times the number of structures is at most one more than the number of bytes |
| SmbiosTable.EndOfTableHidesTail | cprobe/dmi/rewsr_dmi.c:110-113 | behind a type-127 structure closed by two NULs, appended bytes change neither structures nor verdict |
| SmbiosTable.ZeroPaddingIsIgnored | cprobe/dmi/rewsr_dmi.c:48-64 | any number of zero bytes behind complete structures is not seen |
| SmbiosTable.DecodeEncode | cprobe/dmi/rewsr_dmi.c:103-108 | decoding an encoded record gives the record back: type, handle, body and strings |
| SmbiosTable.WalkEncoded | cprobe/dmi/rewsr_dmi.c:43-115 | walking any encoded table gives exactly its records, in order |
| SmbiosTable.EncodeDecodeExactly | cprobe/dmi/rewsr_dmi.c:72-101 | encoding what was decoded restores the bytes if and only if the set is closed and hides nothing behind a leading NUL |
| SmbiosCursor.Cursor.constructor | cprobe/dmi/rewsr_dmi.c:35-41 | a new cursor has the whole table ahead of it; a null or empty table is done |
| SmbiosCursor.Cursor.Advance | cprobe/dmi/rewsr_dmi.c:43-115 | one call returns and leaves exactly what the step function says; on -EPROTO the cursor has not moved |
| SmbiosCursor.Locate | cprobe/dmi/rewsr_dmi.c:52-108 | the structure at an offset, with its two areas, type and handle, or the error, as the step function says |
| SmbiosCursor.ScanStringSet | cprobe/dmi/rewsr_dmi.c:75-98 | the loop finds the end of the string set, and tells a short one |
| SmbiosCursor.DmiString | cprobe/dmi/rewsr_dmi.c:117-139 | with an 8-bit counter, a reference is resolved to the start of the index-th leading run, or to none |
| SmbiosCursor.FoundIsReference | cprobe/dmi/rewsr_dmi.c:117-139 | in any set that ends in a NUL the run found is exactly the index-th string; neither the length guard nor the counter's wrap can be observed |
| SmbiosCursor.EncodedStringFound | cprobe/dmi/rewsr_dmi.c:117-139 | in an encoded set, reference i gives string i for every i up to their number, and none for 0 and past the end |
| SmbiosCursor.Strlen | cprobe/dmi/rewsr_dmi.c:160 | the scan stops at the first NUL, inside the buffer |
| SmbiosCursor.Resolve | cprobe/dmi/rewsr_dmi.c:156-160 | the string a reference denotes lies in the buffer where the code reads it |
| SmbiosCursor.CopyString | cprobe/dmi/rewsr_dmi.c:149-169 | the field holds the string cut to cap - 1 bytes without trailing spaces, NUL-terminated; the bytes behind are untouched; a missing field or dangling reference gives the empty string |
| SmbiosCursor.FieldKeepsExactly | cprobe/dmi/rewsr_dmi.c:160-168 | a field holds a string unchanged if and only if it is shorter than the field and does not end in a space |
| SmbiosCursor.FieldTextLongest | cprobe/dmi/rewsr_dmi.c:160-168 | otherwise it holds the longest first part that fits and does not end in a space |
| SmbiosInfo.Info.Clear | cprobe/dmi/rewsr_dmi.c:371-376 | the zeroed record holds no structure |
| SmbiosInfo.Info.AddProcessor | cprobe/dmi/rewsr_dmi.c:408-415 | the table holds one more processor, or counts it as dropped |
| SmbiosInfo.Info.AddMemdev | cprobe/dmi/rewsr_dmi.c:416-422 | the same for memory devices |
| SmbiosInfo.Info.AddSingleton | cprobe/dmi/rewsr_dmi.c:386-407 | the first record of a type is kept, later ones are passed over |
| SmbiosInfo.Info.Absorb | cprobe/dmi/rewsr_dmi.c:383-426 | one turn of the loop makes the record hold one more structure |
| SmbiosInfo.Parse | cprobe/dmi/rewsr_dmi.c:371-428 | on success and on failure the record ends up holding exactly the structures walked: stored plus dropped is their number, slot i decodes the i-th, each singleton the first; the result is 0, -EPROTO or -EINVAL accordingly |
| SmbiosInfo.DecodeLoop | cprobe/dmi/rewsr_dmi.c:380-427 | the loop terminates and absorbs the whole walk |
| SmbiosInfo.HoldsDetermines | cprobe/dmi/rewsr_dmi.c:371-428 | what the record holds is determined by the structures walked, in every field and slot |
| SmbiosRecords.MemSizeRecovered | cprobe/dmi/rewsr_dmi.c:194-214 | every size in MB that the two fields can hold is read back, whatever the reserved bit; sizes in KB are rounded up |
| SmbiosRecords.ParseDmi | cprobe/dmi/rewsr_dmi.c:371-428 | the parse with the decoders of this module holds exactly the structures walked, with the result code the walk calls for; what the decoders read from bytes is stated by the `SmbiosLayout` rows |
| SmbiosRecords.TextOfEncoded | cprobe/dmi/rewsr_dmi.c:149-180 | a text field of an encoded record holds the string its byte refers to, cut and trimmed, and nothing for 0 or a dangling reference |
| SmbiosLayout.U16Read | cprobe/dmi/rewsr_dmi.c:22-24 | a word field holds the number whose two bytes, lowest first, stand there |
| SmbiosLayout.U32Read | cprobe/dmi/rewsr_dmi.c:26-29 | the same for four bytes |
| SmbiosLayout.U64Read | cprobe/dmi/rewsr_dmi.c:31-33 | the same for eight bytes |
| SmbiosLayout.MemdevRead | cprobe/dmi/rewsr_dmi.c:340-369 | a memory device laid out as section 7.18 of the SMBIOS specification says, its size split over word and extended dword, is decoded to exactly that device, in every field, whatever the reserved and attribute bits |
| SmbiosLayout.OddSizesRead | cprobe/dmi/rewsr_dmi.c:194-214 | from the bytes: sizes in KB are rounded up to MB, and an unknown size is the largest number |
| SmbiosLayout.ProcessorRead | cprobe/dmi/rewsr_dmi.c:309-338 | a processor laid out as section 7.5 says, counts of 255 and more behind the 0xFF escape, is decoded to exactly that processor, in every field, whatever the other status bits |
| SmbiosLayout.BiosRead | cprobe/dmi/rewsr_dmi.c:230-244 | so is a BIOS record, its ROM size in units of 64 KB |
| SmbiosLayout.SystemRead | cprobe/dmi/rewsr_dmi.c:246-276 | so is a system record; its UUID is present unless all bytes are 0 or all are 0xFF |
| SmbiosLayout.BaseboardRead | cprobe/dmi/rewsr_dmi.c:278-291 | so is a baseboard record |
| SmbiosLayout.ChassisRead | cprobe/dmi/rewsr_dmi.c:293-307 | so is a chassis record, its lock in the top bit of the type |
| SmbiosLayout.BareRecords | cprobe/dmi/rewsr_dmi.c:174-192 | what structures that end behind their header are decoded to |
| SmbiosLayout.TableHeld | cprobe/dmi/rewsr_dmi.c:383-426 | of any walk the parse holds the first structure of each of the types 0 to 3, up to 16 of type 4 and up to 192 of type 17 in order, the other slots zero, and the numbers that found no room |
| CpuBits.ClearLowest | cprobe/sysfs/rewsr_sysfs.c:241-244 | v & (v - 1) is smaller and has exactly one bit less |
| CpuBits.CpusCount | cprobe/sysfs/rewsr_sysfs.c:237-247 | the number of CPUs in a bitmap is the sum of its words' bit counts |
| CpuBits.HasExactly | cprobe/sysfs/rewsr_sysfs.c:251-256 | CPU c is in the bitmap if and only if bit c mod 64 of word c / 64 is 1 |
| CpuList.CountWord | cprobe/sysfs/rewsr_sysfs.c:240-244 | clearing the lowest bit until none is left counts the bits, in a 32-bit counter |
| CpuList.CpulistNumber | cprobe/sysfs/rewsr_sysfs.c:153-169 | the number at a position, -EINVAL without a digit, -ERANGE above 32 bits |
| CpuList.SetBit | cprobe/sysfs/rewsr_sysfs.c:212 | exactly one CPU is added to the set |
| CpuList.Fill | cprobe/sysfs/rewsr_sysfs.c:211-216 | exactly the range's CPUs are added, and the loop ends even for the largest CPU number |
| CpuList.CountBits | cprobe/sysfs/rewsr_sysfs.c:237-247 | the count is the number of CPUs modulo 2^32 |
| CpuList.FillList | cprobe/sysfs/rewsr_sysfs.c:191-235 | the loop accepts and refuses as the list function says, and the bitmap is the union of the ranges read |
| CpuList.ParseCpulist | cprobe/sysfs/rewsr_sysfs.c:171-249 | the whole result: return code, bit c set if and only if c is in the union of the ranges, words beyond the size untouched, count stored only on success |
| CpuList.CpumaskTest | cprobe/sysfs/rewsr_sysfs.c:251-256 | 1 if and only if the CPU is in the set, for every 32-bit number and every size |
| CpuListLaws.CountIsExactUnlessFull | cprobe/sysfs/rewsr_sysfs.c:237-247 | the stored count is the number of CPUs if and only if the list leaves out some 32-bit number; otherwise it is 0 |
| CpuListLaws.FullListCountsAsZero | cprobe/sysfs/rewsr_sysfs.c:237-247 | the list of all 2^32 CPUs is accepted, fills the bitmap and is counted as 0 |
| CpuListLaws.CountIsExactBelow | cprobe/sysfs/rewsr_sysfs.c:237-247 | with fewer than 2^26 words the count is exact |
| CpuListLaws.JoinLists | cprobe/sysfs/rewsr_sysfs.c:178-235 | for accepted texts a and b, exactly when a,b is accepted, and then its ranges are a's followed by b's |
| CpuListLaws.JoinCanFail | cprobe/sysfs/rewsr_sysfs.c:224-234 | two accepted texts whose join is refused |
| CpuListLaws.JoinIsUnion | cprobe/sysfs/rewsr_sysfs.c:171-249 | the bitmap of an accepted join is the union of the bitmaps of the two lists |
| CpuListLaws.ParseRendered | cprobe/sysfs/rewsr_sysfs.c:171-249 | every list of ranges, rendered as text, is parsed back to those ranges |
| CpuListFaults.PairVerdict | cprobe/sysfs/rewsr_sysfs.c:153-208 | lo-hi, for numbers of any size: -ERANGE for one that does not fit 32 bits, -EINVAL for a range that runs backwards, -ERANGE for one past the bitmap, in this order, and otherwise the range |
| CpuListFaults.FaultBehindRanges | cprobe/sysfs/rewsr_sysfs.c:191-235 | good ranges and then any pair of numbers: the ranges are kept, and the pair decides the result |
| CpuListFaults.FaultBehindList | cprobe/sysfs/rewsr_sysfs.c:191-235 | behind any accepted list and a comma a text without a line break in front is read as it is alone, faults included; nothing behind the comma is -EINVAL |
| CpuListFaults.NoNumber | cprobe/sysfs/rewsr_sysfs.c:153-156 | a text that starts with neither a digit nor a blank is -EINVAL |
| CpuListFaults.StrangerBehind | cprobe/sysfs/rewsr_sysfs.c:218-228 | anything but a blank, a comma or a dash behind a number is -EINVAL, and the number has been read |
| CpuListFaults.LeadingBlanks | cprobe/sysfs/rewsr_sysfs.c:178-190 | spaces, tabs and line breaks in front of a list make no difference |
| CpuListGo.CountCPUList | collectors/linux_numa.go:258-277 | the count, in Go's 64-bit integers, is the wrapped sum of what the parts add |
| CpuListGo.PartsAreRanges | collectors/linux_numa.go:263-275 | on every text accepted by C, blanks and line breaks included, the parts add up to the total width of the ranges |
| CpuListGo.BlankCount | collectors/linux_numa.go:258-269 | a text of nothing but blanks is counted as one CPU, the empty text as none |
| CpuListGo.GoCountExactly | collectors/linux_numa.go:258-277 | what countCPUList returns on an accepted text is the total width of the ranges if and only if the text is empty or not blank and the width fits an int |
| CpuListGo.WidthFits | collectors/linux_numa.go:258-277 | which it does for every text of fewer than 2^31 characters |
| CpuListGo.WidthBoundsCpus | cprobe/sysfs/rewsr_sysfs.c:211-216 | the distinct CPUs number at most the total width, and exactly that if and only if the ranges are pairwise disjoint |
| CpuListGo.CountsAgree | collectors/linux_numa.go:258-277 | the values the two programs return: Go's wrapped count is the total width, the C count modulo 2^32 is at most that, and they are equal if and only if the ranges are pairwise disjoint |
| NumaRun.LiveExactly | collectors/linux_numa.go:120-128 | a pointer is live if and only if the slice still fits the capacity it had when the pointer was taken |
| NumaRun.RunIds | collectors/linux_numa.go:120-128 | the nodes are the distinct ids in order of first appearance |
| NumaRun.RunHoldsLastLanded | collectors/linux_numa.go:174-185 | each attribute is the last value written while the node's pointer was live |
| NumaRun.FaithfulExactly | collectors/linux_numa.go:115-191 | lines are read faithfully, whatever their values, if and only if every last write comes while its pointer is live, which is said of the ids alone |
| NumaRun.ContiguousIsFaithful | collectors/linux_numa.go:115-191 | when each node's lines are contiguous every attribute is the last value given |
| NumaRun.InterleavedLosesAWrite | collectors/linux_numa.go:120-128 | three lines whose last value is lost |
| Numa.NumaTopology.Append | collectors/linux_numa.go:124-125 | append writes in place while there is room and moves the slice to a new array otherwise |
| Numa.NodeFor | collectors/linux_numa.go:120-128 | the pointer for an id, with a zero node appended for a new one; older pointers stay where they pointed |
| Numa.Store | collectors/linux_numa.go:174-185 | a write shows in the topology if and only if the pointer is live |
| Numa.ParseNumactlHardware | collectors/linux_numa.go:115-191 | the nodes are the run of the updates scanned from the lines, and the distances the rows scanned, whatever the lines; what lines say is stated by the `LineUpdateRendered`, `ParseRendered` and `NumaPrinted` rows |
| Numa.LineUpdateRendered | collectors/linux_numa.go:163-185 | every update printed as a line is read back |
| Numa.ParseRendered | collectors/linux_numa.go:115-191 | the whole printed text of contiguous updates is read back and read faithfully |
| NumaPrinted.LineRowRendered | collectors/linux_numa.go:141-160 | a printed row of the matrix is read back as its numbers, in order |
| NumaPrinted.OutputParsed | collectors/linux_numa.go:91-191 | the whole output for a topology, written as `numactl` writes it with its first line, the lines of each node, the head of the matrix and its aligned rows, is read back as exactly that topology: nodes, attributes and matrix, however the slice grows |
| Numa.SortIds | collectors/linux_numa.go:221-227 | the exchange sort leaves the ids sorted and a permutation of what they were |
| Bond.SplitIsFile | collectors/linux_bond.go:171-213 | splitting at slave lines loses nothing: head and blocks, put together, are the entries |
| Bond.BondFacts.Append | collectors/linux_bond.go:184-185 | append adds one slave behind those there are, and may move them |
| Bond.Absorb | collectors/linux_bond.go:183-210 | one entry: the bond's whole new value, with the current pointer always to the last live slave |
| Bond.MeaningNext | collectors/linux_bond.go:183-210 | absorbing an entry keeps a bond what its split file says |
| Bond.ParseBondFile | collectors/linux_bond.go:171-213 | the result is the file split at its slave lines, the last value of each key winning in the head and in each block; which texts are which keys, and how speeds are read, is stated by the `BondPrinted` row |
| BondPrinted.BondParsed | collectors/linux_bond.go:155-213 | the file the kernel prints for a bond, its labels and "n Mbps" speeds written out, with a line of any other label and empty lines, is read back as exactly that bond: every attribute, every slave in order, every speed up to the largest int |
| NameList.EmitExactly | cprobe/ethtool/rewsr_ethtool_names.c:186-228 | for every list and capacity the return value is the length of the space-joined list, the text stays below the capacity, and it is the whole list if and only if the return value is below the capacity |
| NameList.WrittenIsAssembled | cprobe/ethtool/rewsr_ethtool_names.c:212-224 | only whole names are written, in list order |
| NameList.LeadingSpaceExactly | cprobe/ethtool/rewsr_ethtool_names.c:212-224 | the text begins with a space if and only if the first name alone does not fit the buffer and a later one with its space does; it is empty if and only if none of them fits |
| NameList.LeadingSpaceShows | cprobe/ethtool/rewsr_ethtool_names.c:212-224 | a list that is written as a space and its second name |
| NameList.NamesReadBack | collectors/linux_tee.go:158-160 | splitting an untruncated list at white space gives the names |
| NameList.PutName | cprobe/ethtool/rewsr_ethtool_names.c:209-225 | one name appended if it fits: the whole buffer, and the two lengths |
| LinkModes.BitNameFits | cprobe/ethtool/rewsr_ethtool_names.c:202-207 | "bit" and any 32-bit number fit the sixteen-byte scratch buffer |
| LinkModes.LinkModesString | cprobe/ethtool/rewsr_ethtool_names.c:186-228 | the buffer and the return value are the rendering of the names of the set bits; nothing past the NUL is touched; a null or empty mask renders as nothing |
| LinkModes.ListedExactly | cprobe/ethtool/rewsr_ethtool_names.c:196-199 | a bit's name is listed if and only if the bit is set |
| LinkModes.ModeListedExactly | cprobe/ethtool/rewsr_ethtool_names.c:197-210 | bit b of word w is listed, under the table's name or else as "bit" and its number, if and only if mask[w] / 2^b is odd |
| LinkModes.ListedInOrder | cprobe/ethtool/rewsr_ethtool_names.c:197-210 | and the names stand in the order of the bits |
| LinkModes.StringDeterminesMask | cprobe/ethtool/rewsr_ethtool_names.c:186-228 | masks of one size with the same untruncated string have the same bits, unknown bits included |
| CpuFlags.FeaturesString | cprobe/cpuid/rewsr_cpuid.c:207-237 | the buffer and the return value are the rendering of the names of the flags set |
| CpuFlags.FlagNamesExactly | cprobe/cpuid/rewsr_cpuid.c:216-220 | a name is listed if and only if its flag is set |
| CpuFlags.CpuinfoFlagSet | collectors/linux_tee.go:151-164 | the set holds exactly the words of the first flags line |
| CpuFlags.FlagsRecovered | collectors/linux_tee.go:151-164 | from the untruncated rendering in a cpuinfo text, whatever the other lines, exactly the names of the flags set are recovered |
| Brand.BrandString | cprobe/cpuid/rewsr_cpuid.c:239-267 | one pass yields the text between leading spaces and the first NUL without trailing spaces, NUL-terminated; the rest of the buffer is untouched |
| Brand.PaddingRemoved | cprobe/cpuid/rewsr_cpuid.c:248-265 | however a brand is padded with spaces and NULs, its text is recovered |
| Brand.BrandRecovered | cprobe/cpuid/rewsr_cpuid.c:239-267 | every brand that fits 48 bytes comes back from the registers that carry it |
| Topology.TopologyDecode | cprobe/cpuid/rewsr_cpuid.c:269-305 | threads per core from the last SMT level, logical processors from the largest count, of the levels before the first invalid one |
| Topology.CoresFit | cprobe/cpuid/rewsr_cpuid.c:300-303 | a valid decode has at least one core, and as many as fit into the logical processors |
| Topology.OutermostExactly | cprobe/cpuid/rewsr_cpuid.c:289-294 | the count kept is the outermost level's if and only if no inner level reports more |
| Topology.InnerLevelKept | cprobe/cpuid/rewsr_cpuid.c:289-294 | two levels of which the inner one's count is kept |
| Topology.SubleafFields | cprobe/cpuid/rewsr_cpuid.c:281-286 | the level type is the second byte of ecx and the count the low half of ebx, whatever the other bits |
| Topology.TwoLevelsDecoded | cprobe/cpuid/rewsr_cpuid.c:269-305 | an SMT level, a core level and the end, whatever follows: threads, logical processors and cores are the ones given |
| Modalias.HexFixed | cprobe/pci/rewsr_pci.c:24-44 | n digits are read in 32-bit arithmetic; on anything else the position stays |
| Modalias.Expect | cprobe/pci/rewsr_pci.c:46-53 | the tag is passed if and only if it stands there |
| Modalias.ParseModalias | cprobe/pci/rewsr_pci.c:55-90 | out is zeroed, holds the fields read before a failure and zeros after; 0 exactly when all fields are read and only blanks follow; null arguments give -EINVAL and leave out as it was |
| Modalias.HexExactly | cprobe/pci/rewsr_pci.c:24-44 | n digits are read as v if and only if they are v's rendering up to case |
| Modalias.ParsesExactly | cprobe/pci/rewsr_pci.c:55-90 | a text is accepted as an id if and only if it is the id's rendering up to the case of hex digits, followed only by blanks |
| Modalias.AcceptedIsRendered | cprobe/pci/rewsr_pci.c:55-90 | every accepted text is accepted as some id |
| Modalias.FormatParses | cprobe/pci/rewsr_pci.c:55-90 | the kernel's line for an id, with any blanks behind, is parsed back to the id |
| Modalias.FormatInjective | cprobe/pci/rewsr_pci.c:55-90 | no two ids are printed as the same line |
| Lspci.SplitLspciFields | collectors/linux_pci.go:210-233 | fields and tokens are the quoted and the bare items of the line, in order |
| Lspci.ItemsOfLine | collectors/linux_pci.go:210-233 | every list of quoted texts and bare words, written out, is split back into itself |
| Lspci.SplitIsStable | collectors/linux_pci.go:210-233 | for any line, what was split off it can be written out and split again without loss |
| Lspci.NameAndIDRecovered | collectors/linux_pci.go:239-246 | the last bracket pair is the id, whatever brackets the name holds |
| Lspci.ParseLspciMM | collectors/linux_pci.go:169-206 | the devices are those of the lines that describe one, in order |
| Lspci.DeviceRecovered | collectors/linux_pci.go:171-204 | a printed device line is read back as the device, its revision included |
| Lspci.ParseRendered | collectors/linux_pci.go:169-206 | the whole printed output is read back as the devices printed |
| Decimal.RenderValue | cprobe/sysfs/rewsr_sysfs.c:158-165 | the decimal rendering of a number has that value |
| GoStrings.SplitJoin | facts/merge.go:130-135 | splitting undoes joining for parts free of the separator |
| GoStrings.SplitConcat | facts/merge.go:130-135 | the parts of two texts with the separator between are those of the one and then those of the other |
| GoStrings.FieldsJoin | collectors/linux_tee.go:158-160 | white-space splitting undoes joining words |
| GoStrings.AtoiExactly | collectors/linux_numa.go:145-155 | the numeral of any number, signed or not, is read as that number if and only if it fits 64 bits |
| GoStrings.AtoiRefuses | collectors/linux_numa.go:145-155 | a text with anything but digits behind its sign, or without digits, is refused |
| Sorting.SortSorts | fleet/fleet.go:109-111 | the sorted list is sorted and a permutation |
| Sorting.SortOfPermutation | fleet/fleet.go:109-111 | permutations sort to the same list |
| Sorting.LeqExactly | fleet/fleet.go:109-111 | the order is the lexicographic one: a first part, or the smaller character at the first difference |
| FactsMerge.ServerFacts.MergeInto | facts/merge.go:56-100 | the whole new state is the merge of the two values, even of a record with itself; what the merge keeps and takes over is stated by the `FactsLaws` rows, field by field |
| FactsMerge.UnionStrings | facts/merge.go:138-155 | the loop over a seen map computes the ordered union |
| FactsLaws.FieldsFillGaps | facts/merge.go:51-118 | every scalar field, the disk and NIC lists, and every raw key are only filled where still unset |
| FactsLaws.FirstReportWins | facts/merge.go:11-49 | for every list of collectors each such field is the first non-zero value reported |
| FactsLaws.SetFieldIsStable | facts/merge.go:11-17 | appending any further collectors never changes a field already set |
| FactsLaws.UnionContents | facts/merge.go:138-155 | a union holds exactly the old entries and the new non-empty ones, the old ones first |
| FactsLaws.UnionOrder | facts/merge.go:138-155 | what is new stands in the order in which it first comes up, behind all that was there |
| FactsLaws.MergedListsExactly | facts/merge.go:83-84 | over any list of collectors the capabilities, and so the network modes, are exactly those there were and the non-empty ones some collector reported |
| FactsLaws.MergedListInOrder | facts/merge.go:83-84 | each once, in the order of first report |
| FactsLaws.UnionAssociative | facts/merge.go:138-155 | ordered unions associate |
| FactsLaws.MergeAssociative | facts/merge.go:56-100 | the merge is associative on every field but the source |
| FactsLaws.SourcesAreJoined | facts/merge.go:123-136 | for plus-free names the source is the distinct non-empty names joined with plus |
| FactsLaws.SplitSource | facts/merge.go:120-136 | splitting the final source at plus gives exactly the distinct names in order of first appearance |
| FactsLaws.SourceNotAssociative | facts/merge.go:123-136 | an input on which merging sources does not associate |
| FactsLaws.SourceAssociativeExactly | facts/merge.go:123-136 | merging sources associates if and only if one of the three is empty, the third is a part of the second, or neither is a part of the first |
| FactsLaws.MergeAssociativeExactly | facts/merge.go:56-100 | the whole merge associates under exactly that condition on the sources |
| FactsInfer.InferCapabilities | facts/infer.go:13-59 | the closure over a seen map and the sort compute the inferred list |
| FactsInfer.InferIsSortedUnion | facts/infer.go:13-59 | the list is strictly increasing, and holds exactly the reported and the inferable capabilities that are not empty |
| FactsInfer.InferIdempotent | facts/infer.go:13-59 | inference fed its own output returns it |
| FactsInfer.HealthExactly | facts/infer.go:65-95 | when exactly a server is healthy, and when unknown |
| FactsBuilt.FoldsExactly | facts/infer.go:33-81 | the four words compared whatever their case, letter by letter |
| FactsBuilt.FeatureExactly | facts/infer.go:44-49 | which feature names give which capability, letter by letter, the dotted capital I included |
| FactsBuilt.InferredExactly | facts/infer.go:32-55 | each inferable capability, with exactly what it follows from: an NVMe disk, a port of 25 Gbps or more, an SR-IOV or RDMA feature, a known power state |
| FactsInfer.BuildServerFacts | facts/merge.go:18-49 | null exactly when no collector returned facts, and then with every error; otherwise the finished merge of all results in order, of which the `FactsBuilt` rows state every field |
| FactsBuilt.BuiltExactly | facts/merge.go:18-49 | for any collectors: the id and time given, strictly increasing capabilities that are exactly the non-empty ones some collector reported or that follow from the merged facts, exactly the network modes reported, the health the merged facts call for, and otherwise the merge |
| FactsBuilt.BuiltFirstReports | facts/merge.go:11-49 | power state, provisioning, memory, disks, NICs and failure domain are each the first value reported |
| FactsBuilt.BuiltFirstCpu | facts/merge.go:102-118 | and so is each part of the CPU facts, and what is kept under each raw key |
| FactsInfer.BuildOnlyGrows | facts/merge.go:83-84 | appending collectors only grows the capability set |
| Counting.CountOnIsMultiset | fleet/fleet.go:92-94 | a counting map holds each value's number of occurrences |
| Fleet.Aggregate | fleet/fleet.go:52-113 | every counter, wrapped total, tally and domain of the summary is the one its servers determine |
| FleetStep.NoServers | fleet/fleet.go:53-59 | the summary of no servers is all zero and empty |
| FleetStep.CountersNext | fleet/fleet.go:65-77 | what one more server adds to each counter, by the words its health and power state say |
| FleetStep.TotalsNext | fleet/fleet.go:79-87 | and to each total, in Go's int |
| FleetStep.TalliesNext | fleet/fleet.go:85-99 | and to each tally: one for each time it lists a capability or mode, for its model if it has one, and for each port of positive speed |
| FleetStep.DomainsNext | fleet/fleet.go:101-111 | and to the failure domains: its own, "unassigned" if it has none, holds one more id in order, and the others are as they were |
| Fleet.FindCapable | fleet/fleet.go:117-140 | the sorted ids of the servers with every required capability, as the `Query` rows of `FleetLaws` write it out |
| FleetLaws.OrderDoesNotMatter | fleet/fleet.go:52-113 | the summary is the same for every order of the servers, sorted domain lists included |
| FleetLaws.QueryOrderDoesNotMatter | fleet/fleet.go:117-140 | so is the answer of the query |
| FleetLaws.QueryAnswersExactly | fleet/fleet.go:115-140 | an id is in the answer if and only if some server of that id lists each required capability; the answer is sorted |
| FleetLaws.QueryCountsExactly | fleet/fleet.go:117-140 | and it is there as often as there are such servers |
| FleetLaws.MoreRequirementsFewerAnswers | fleet/fleet.go:115-140 | the answer to a and b together is part of the answer to each, as multisets of ids, and the empty requirement is answered with every server |
| FleetLaws.CountsAgreeExactly | fleet/fleet.go:92-94 | a capability's count is at least the number of servers the query finds, and equal if and only if no server lists it twice |
| FleetLaws.CountsCanDiffer | fleet/fleet.go:92-94 | a server with a repeated capability is counted twice and found once |
| FleetLaws.AgreeOnAllExactly | fleet/fleet.go:52-140 | summary and query agree on every capability if and only if every list is free of duplicates |
| FleetLaws.InferredListsAreDistinct | facts/infer.go:18-26 | inferred lists are |
| FleetLaws.BuiltFleetAgrees | facts/merge.go:45-46 | over any fleet of facts that BuildServerFacts returned, summary and query agree on every capability |
| FleetLaws.ServersAreConserved | fleet/fleet.go:61-107 | the health counters and the domain lists each add up to the number of servers |
| FleetLaws.BandwidthIsConservedExactly | fleet/fleet.go:85-90 | with non-negative speeds ports times speed add up to the total in Go's int; while the total does not wrap they do if and only if no speed is negative, and are more otherwise |
| FleetLaws.PortsAddUp | fleet/fleet.go:85-90 | ports times speed is at least the sum of all speeds, and equal to it if and only if none is negative |
| FleetLaws.BandwidthCanDiffer | fleet/fleet.go:85-90 | one port of negative speed is in the total and not among the ports |
| Msr.ProductFits | cprobe/msr/rewsr_msr.c:43-46 | ticks times 10^9 fit 128 bits |
| Msr.TscDeltaExact | cprobe/msr/rewsr_msr.c:38-51 | across a wrap too, the nanoseconds are the exact floor, saturated at the largest 64-bit value |
| Msr.IntervalsAddUp | cprobe/msr/rewsr_msr.c:38-51 | the intervals of a run add up to the whole, less at most one per cut |
| Msr.UnitsDecoded | cprobe/msr/rewsr_msr.c:12-20 | the three exponents are read as powers of two whatever the reserved bits |
| Msr.DeltaExactly | cprobe/msr/rewsr_msr.c:30-36 | a delta is the true advance if and only if that is below 2^32, and below it otherwise |
| Msr.TicksConservedExactly | cprobe/msr/rewsr_msr.c:30-36 | over a run the deltas add up to the true count if and only if every interval advanced by less than 2^32 |
| Msr.JoulesConserved | cprobe/msr/rewsr_msr.c:30-36 | and so do the energies |

## Left out

- Files, directories, ioctls, MSR devices, the CPUID instruction, commands, HTTP, Redfish,
  logging, timers: a collector is a value, its optional facts with its optional error, and
  the observation time is a parameter.
- The SQLite store, JSON and `FirmwareSpread`, whose meaning lies in libraries.
- `rewsr_dmi_parse_entry_point` and the text form of UUIDs: one bounded checksum and one
  fixed format.
- The constant name tables (link modes, CPUID flags, PCI classes and vendors, chassis,
  memory and form-factor names): a renderer takes its table as a parameter, with the facts
  it needs of it (distinct words) stated.
- The bit-extraction decoders of CPUID leaves 1 and 7: single shifts and masks.
- SmbiosInfo.Info.Absorb: a record decoder gets a copy of its structure's bytes, and its
  fields are values, while the source fills them in place. `SmbiosCursor.CopyString` proves
  the copy into a fixed field in place.
- SmbiosCursor.CopyString: source and destination are distinct buffers.
- LinkModes.LinkModesString: the bit number, a C int, must not overflow, so the mask has at
  most 2^26 words.
- CpuFlags.FeaturesString: the flags are given in table order; the byte offsets through
  which the source finds them are not modelled.
- Topology.TopologyDecode: returns a value where the source fills its out-parameter.
- Lspci.ParseLspciMM: the filter by device class and the sysfs enrichment behind it.
- Msr.JoulesConserved: energies are exact rationals; rounding to a double is not modelled.
- Fleet.Aggregate: the totals wrap like Go's int; the counters, each at most the number of
  entries added up, are unbounded.
- FactsMerge.ServerFacts.MergeInto: raw values are texts, times are integers with 0 for the
  zero time, and lists are values, since no list of a collector is written after the merge.
- GoStrings.FieldsJoin: strings are sequences of characters; bytes that are not valid UTF-8
  are not modelled.
- FactsInfer.InferCapabilities: case folding covers the letters that fold into the ASCII
  words compared with.
- Numa.ParseNumactlHardware: the growth of `append` is any function that makes room.
- `readSysfsTopology` beyond its sort, and the remaining collectors and API views.

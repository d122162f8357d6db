# Environment-variable partition table (disk/part_env.c)

U-Boot can take the partition table of an MMC device from an environment variable
instead of from the disk. The variable is `envparts_<uclass><devnum>`, for example
`envparts_mmc1=880K(bootloader),80K(dtb),64K(env),15M(initramfs),50M(kernel),-(data)`.
The parser reads the definition once, from left to right, and returns the requested
1-based partition as a byte offset, a byte size and a name. The block layer then
receives that partition in 512-byte sectors.

This project models the parser and proves properties of it:

- `CTypes`: C's 64-bit `ulong` arithmetic (`Wrap`, modulo 2^64), the conversion of
  an `int` to `unsigned`, and C strings.
- `Decimal`: the digit prefix that `simple_strtoul(.., 10)` reads, and what `%d`
  prints.
- `Entry`: one entry, taken from its first character to the end of its segment.
  - The size: `-`, or digits with an optional unit letter.
  - The placement: right after the previous entry, with the overrun clamped and the
    sector alignment checked.
  - The name between the first `(` and the first `)`.
- `Definition`: two descriptions of the parse, proved equal (`Scan` computes exactly
  `Resolve`).
  - `Walk`/`Resolve` is a reference that goes segment by segment.
  - `Scan` is the source's single-pass character scanner, an imperative method with
    loop invariants. `ReadBracket`, `OpenEntry`, `CloseSegment`, `FinishEntry`,
    `CloseEntry` and `CopyName` are the branches of its `switch`.
- `Layout`: what a successful lookup guarantees about the table.
  - The result is in whole sectors and lies on the disk.
  - Partitions are contiguous and the first one starts at 0.
  - The index is in range.
  - The parse never reads past the entry that decides it.
  - Names are well formed.
- `Locator`: `part_get_definition_env`, meaning which devices are eligible and the
  `snprintf`-built key, whose digits are cut to the key buffer.
- `Driver`: `part_get_definition_part` and `part_get_info_env`, written as methods
  that write the caller's structures (`PartEnv`, `DiskPartition`). They are proved
  against the function `Lookup`.
- `Scenarios`: concrete definitions. One shows that the running end wraps around 2^64.
  Another shows that brackets of entries other than the requested one are ignored.

Behaviour of the code worth knowing:

- A key that does not fit the key buffer is not rejected. `snprintf` cuts it, so long uclass names
  make all devices share one key (`LongNameHidesDevice`).
- `offset_at` is never set, so `@offset` has no effect. `@` ends the digits of a size
  like `,` does. The characters after it are read over, and the entry is always placed
  at the previous end.
- An entry without brackets does not clear the name. The caller's name field keeps
  what it held (`GetDefinitionPart`). In `part_get_info_env` that field is an
  uninitialised stack buffer, which is modelled as the parameter `stale`.
- Bracket errors are reported only for the requested entry. Brackets in other entries
  are not looked at (`OtherEntriesBracketsIgnored`).
- The bound "offset + size <= capacity" holds only in 64-bit arithmetic. The running
  end `size + offset` is a `ulong` sum that can wrap below the capacity, and then the
  clamp does not fire (`WrappedEndEscapesClamp`: `4E,15E` on a 4 EiB disk yields a
  15 EiB second partition).

## Model

| member | source | states |
|---|---|---|
| CTypes.Wrap | disk/part_env.c:75 | a `ulong` result is the value below 2^64 congruent to the exact value modulo 2^64, which is the exact value when it fits |
| CTypes.ToUnsigned | disk/part_env.c:252 | the `int` index, compared with the `unsigned` counter, becomes the value below 2^32 congruent to it |
| Decimal.DigitRun | disk/part_env.c:98 | `simple_strtoul` reads the longest prefix of decimal digits and stops at the first non-digit |
| Decimal.Value | disk/part_env.c:98 | the number that a run of decimal digits denotes, most significant first |
| Decimal.NatDigits | disk/part_env.c:62 | the digits `%d` prints for a natural number form a non-empty run of decimal digits |
| Decimal.FormatInt | disk/part_env.c:62 | `%d` prints a non-empty text without NUL, all digits exactly when the number is not negative |
| Decimal.ValueOfNatDigits | disk/part_env.c:62 | the digits `%d` prints for a natural number read back as that number |
| Decimal.DigitRunStopsAfterDigits | disk/part_env.c:98 | the parse reads exactly the digits, whatever non-digit follows |
| Entry.UnitExponent | disk/part_env.c:100-123 | the power of 1024 that each unit letter, in either case, stands for |
| Entry.SizeMultiplier | disk/part_env.c:99-132 | a multiplier exists exactly for the unit letters K, M, G, T, P, E (either case) and for `@`, `,`, `(`, NUL |
| Entry.MultiplierIsPowerOf1024 | disk/part_env.c:100-128 | each unit letter multiplies by its power of 1024 (K = 1024 up to E = 1024^6), and a plain terminator by 1 |
| Entry.EntrySize | disk/part_env.c:93-136 | a size fails exactly when the entry starts with neither `-` nor a digit (invalid size) or when an unaccepted character follows the digits (invalid suffix) |
| Entry.WrapMul | disk/part_env.c:98-123 | scaling the wrapped `strtoul` value gives the exact product modulo 2^64 |
| Entry.SizeWithUnit | disk/part_env.c:98-123 | digits followed by a unit letter give their value times that unit's power of 1024, modulo 2^64 |
| Entry.SizeWithMultiplier | disk/part_env.c:98-128 | digits followed by any accepted character give their value times its multiplier, modulo 2^64 |
| Entry.DigitsThenChar | disk/part_env.c:98-99 | the parse stops at the character after the digits and sees that character as the suffix |
| Entry.ScaledSize | disk/part_env.c:98-128 | the size is the wrapped digit value times the multiplier of the character after the digits |
| Entry.SizeInBytes | disk/part_env.c:124-128 | digits followed by nothing, `@`, `,` or `(` are a plain byte count |
| Entry.SizeWithBadSuffix | disk/part_env.c:129-131 | any other character after the digits is an invalid suffix |
| Entry.PlaceEntry | disk/part_env.c:174-194 | an entry starts at the previous end, and an overrun is clamped so the entry ends at the disk's end, which is never an error; a `-` entry reaches exactly to the disk's end; success means whole sectors with offset and running end on the disk; a size error passes through; after an aligned previous end on the disk, a parsed size is accepted exactly when its clamped size is whole sectors, and then the entry is placed at the previous end with that size, otherwise the size is misaligned; a misaligned offset cannot occur there |
| Entry.ClampedEnd | disk/part_env.c:181-185 | shrinking an overrunning size by the overrun leaves exactly the room between the offset and the disk's end |
| Entry.AlignedEnd | disk/part_env.c:181 | the running end of two whole-sector values is whole sectors, also after the 64-bit wrap |
| Entry.FirstAt | disk/part_env.c:223-240 | the position recorded for a bracket is its first occurrence in the entry, or none when it does not occur |
| Entry.RepeatedGrows | disk/part_env.c:224-237 | once a bracket has been seen twice, reading more of the entry keeps it repeated |
| Entry.SecondOccurrence | disk/part_env.c:224-237 | a bracket seen after its recorded first position is a repetition |
| Entry.EntryName | disk/part_env.c:195-212 | no name exactly when the entry has no bracket; unpaired exactly when only one kind occurs; a returned name fits the 32-byte field and holds no `)` |
| Entry.NameBetweenBrackets | disk/part_env.c:197-203 | the characters strictly between the first `(` and the first `)` are returned unchanged when they fit |
| Entry.ReversedBrackets | disk/part_env.c:197-201 | a `)` before the `(` makes the unsigned length huge, so it is reported as a name that is too long |
| Entry.FirstAtIs | disk/part_env.c:228-238 | a position holding the bracket, with none before it, is the recorded first position |
| Entry.NameAt | disk/part_env.c:195-203 | with brackets at l and r the name is `tok[l+1..r]`, or too long when `r - l - 1`, as an unsigned value, is 32 or more |
| Entry.NameCharsFromEntry | disk/part_env.c:202 | `strncpy` copies only characters of the entry |
| Entry.NameHasNoBrackets | disk/part_env.c:195-240 | when no bracket repeats, the name holds neither bracket |
| Definition.SegEnd | disk/part_env.c:89-92 | the segment ends at the next `,` or at the end of the string, and holds no comma |
| Definition.FirstStart | disk/part_env.c:250-266 | an entry opens at the first character of its segment that is not a bracket or `@`, and every character before it is one of those |
| Definition.FirstStartStep | disk/part_env.c:250-251 | reading one more character extends the search for the entry start by exactly that character |
| Definition.FirstStartGrows | disk/part_env.c:250-251 | once an entry has begun, later characters do not move its start |
| Definition.WalkDuplicate | disk/part_env.c:223-240 | a repeated bracket in the requested entry makes the whole parse fail with a duplicate bracket |
| Definition.TracksStep | disk/part_env.c:223-240 | a character other than the bracket keeps the record, and the first bracket is recorded at its position |
| Definition.NotRepeated | disk/part_env.c:223-240 | a bracket that never occurs twice is not repeated |
| Definition.TracksComplete | disk/part_env.c:223-240 | at the end of the entry the record holds the bracket's first position, with no repetition |
| Definition.TracksDuplicate | disk/part_env.c:224-237 | a bracket seen while one is already recorded is a repetition of the entry |
| Definition.WalkEmpty | disk/part_env.c:93 | a segment in which no entry begins ends the parse as an empty entry |
| Definition.WalkBeyondTarget | disk/part_env.c:252-255 | an entry that begins after the requested number fails as an index not found |
| Definition.WalkReachesPlacement | disk/part_env.c:93-194 | an entry up to the target whose brackets pass is then placed |
| Definition.WalkPlaceFails | disk/part_env.c:129-194 | a size or alignment error of such an entry is the outcome of the whole parse |
| Definition.WalkTarget | disk/part_env.c:195-215 | the requested entry yields its placement and its name, or the name's error |
| Definition.WalkNext | disk/part_env.c:216-222 | an earlier entry hands its running end to the next segment, or the parse fails at the end of the string |
| Definition.WalkOkStep | disk/part_env.c:174-222 | a successful parse goes through the placement of the first segment's entry, then returns the target or moves on |
| Definition.CloseEntry | disk/part_env.c:93-194 | the size, offset and alignment arithmetic computes exactly the placement `PlaceEntry` |
| Definition.CopyName | disk/part_env.c:195-212 | the name from the recorded bracket positions is exactly `EntryName` of the entry |
| Definition.TrackedName | disk/part_env.c:195-203 | with both brackets recorded, the name is what lies between them unless it is too long |
| Definition.FinishEntry | disk/part_env.c:93-222 | closing the entry gives the reference outcome, or hands the next segment the running end |
| Definition.ReadChar | disk/part_env.c:223-268 | a character inside a segment either ends the parse with the reference's error or keeps the scanner invariant |
| Definition.PassOver | disk/part_env.c:241-249 | `@`, and any character of an open entry that is not a tracked bracket, changes nothing |
| Definition.ReadBracket | disk/part_env.c:223-240 | a bracket of the requested entry is recorded, or a second one ends the parse as a duplicate; in other entries it is ignored |
| Definition.OpenEntry | disk/part_env.c:250-266 | the first character of an entry moves the counter on, fails when it passes the index, and marks the requested entry |
| Definition.CloseSegment | disk/part_env.c:91-222 | a `,` or the terminator decides the reference outcome or starts the next segment with the next entry number |
| Definition.Walk | disk/part_env.c:89-222 | the reference outcome from one segment on: a segment in which no entry begins is an empty entry, otherwise its entry decides or passes on the running end |
| Definition.WalkEntry | disk/part_env.c:223-255 | an entry beginning past the requested number means the index is not found, and a repeated bracket in the requested entry is a duplicate |
| Definition.WalkPlaced | disk/part_env.c:93-222 | the entry is placed; the requested one returns its extent and name, an earlier one hands its end to the next segment, and the end of the string means the index is not found |
| Definition.Resolve | disk/part_env.c:72-270 | partition `part` is the walk from the first segment with entry number 1, the index compared as `unsigned` and the running end 0 |
| Definition.Scan | disk/part_env.c:72-270 | the single-pass scanner computes exactly the reference outcome `Resolve` for every definition, index and capacity |
| Layout.CommasFrom | disk/part_env.c:91-92 | the number of commas still to come is at most the characters left |
| Layout.EntryCount | disk/part_env.c:91-92 | a definition has between 1 and its length + 1 segments |
| Layout.CommasAreCounted | disk/part_env.c:91-92 | the commas counted one by one are the commas of the text |
| Layout.SegmentHasNoCommas | disk/part_env.c:91-92 | the comma count at a segment's start is the count at its end |
| Layout.SoundStep | disk/part_env.c:174-194 | each segment either decides a sound outcome or passes on an aligned running end on the disk |
| Layout.WalkSound | disk/part_env.c:174-194 | a found partition is whole sectors, starts on the disk and ends on it modulo 2^64; a misaligned offset is never reported |
| Layout.ResolveSound | disk/part_env.c:174-214 | the same for every definition and index, and the scanner never reports a missing definition |
| Layout.WalkTargetOffset | disk/part_env.c:175-176 | the requested entry starts where the previous one ended |
| Layout.TargetExtent | disk/part_env.c:174-214 | the found offset and size are the placement of the first entry of the segment |
| Layout.SecondOffset | disk/part_env.c:181 | the entry after the first begins where the first one ends |
| Layout.NextAfterTarget | disk/part_env.c:175-186 | the partition after the requested one begins at the requested one's end |
| Layout.NeighboursStep | disk/part_env.c:216-222 | before the requested entry, the parses for t and t + 1 move on together |
| Layout.WalkNeighbours | disk/part_env.c:175-186 | entries t and t + 1 lie back to back |
| Layout.ResolveContiguous | disk/part_env.c:175-186 | every partition begins where the one before it ends (modulo 2^64) |
| Layout.FirstEntryAtZero | disk/part_env.c:84 | the running end starts at 0, so the first partition begins at offset 0 |
| Layout.WalkIndexRange | disk/part_env.c:252-255 | a successful parse finds an entry between the current number and the number of segments left |
| Layout.ResolveIndexInRange | disk/part_env.c:252-258 | a found index is between 1 and the number of segments, and the C index is positive for definitions shorter than 2^31 - 1 characters |
| Layout.ZeroIndexFails | disk/part_env.c:252-255 | index 0 always fails: as an empty entry when the first segment has none, otherwise as an index not found |
| Layout.SegEndOfExtension | disk/part_env.c:91-92 | appending `,` and more text does not move the end of an earlier segment |
| Layout.FirstStartOfExtension | disk/part_env.c:250-251 | appended text does not change where an earlier entry begins |
| Layout.SameSegment | disk/part_env.c:91-92 | an earlier segment and its entry are the same in the extended definition |
| Layout.TailStep | disk/part_env.c:213-222 | each segment decides both parses alike or moves both on together |
| Layout.WalkIgnoresTail | disk/part_env.c:213-222 | what follows the deciding segment is never read |
| Layout.LaterEntriesNeverRead | disk/part_env.c:213-222 | appending entries does not change any outcome other than an index not found |
| Layout.WalkOkNext | disk/part_env.c:216-222 | a successful parse before the target continues with the next segment |
| Layout.TargetNameWellFormed | disk/part_env.c:195-212 | the requested entry's name fits the field and holds neither a bracket nor a comma |
| Layout.WalkNameWellFormed | disk/part_env.c:195-212 | the same for any successful parse |
| Layout.ResolveNameWellFormed | disk/part_env.c:195-212 | a returned name has fewer than 32 characters and holds no `(`, `)` or `,` |
| Locator.KeyText | disk/part_env.c:62 | the text `"%s%d"` prints: the uclass name followed by the device number |
| Locator.Eligible | disk/part_env.c:42-61 | only the user area of an MMC device whose uclass has a name not starting with `(` is looked up |
| Locator.EnvKey | disk/part_env.c:62 | the key starts with `envparts_`, is shorter than 32 characters, and is the prefix followed by a prefix of `"%s%d"`, either complete or cut at 31 characters |
| Locator.DefinitionEnv | disk/part_env.c:36-70 | a definition exists exactly for the user area of an MMC device with a named uclass not starting with `(`, whose key is set, and it is the value of that device's own key `envparts_<uclass><devnum>` |
| Locator.OtherVariablesIgnored | disk/part_env.c:53-63 | variables not starting with `envparts_` and other uclasses' names never change a device's definition |
| Locator.KeyRecoversDevice | disk/part_env.c:62 | when the key is not cut, the digits after the uclass name read back as the device number |
| Locator.DistinctDevicesDistinctKeys | disk/part_env.c:62 | two devices with different non-negative numbers read different variables while neither key is cut |
| Locator.LongNameHidesDevice | disk/part_env.c:62 | a uclass name of 22 or more characters leaves no room for the number, so every device reads the same variable |
| Locator.KeyOfMmc1 | disk/part_env.c:62 | MMC device 1 reads `envparts_mmc1` |
| Driver.PartEnv.constructor | disk/part_env.c:30-34 | the parser's structure before it is written: the name buffer holds what it held |
| Driver.DiskPartition.constructor | disk/part_env.c:272-273 | the block layer's partition record with the given fields |
| Driver.Capacity | disk/part_env.c:75 | the disk's size in bytes is `lba * blksz` in `ulong` arithmetic |
| Driver.Lookup | disk/part_env.c:72-88 | there is no definition exactly when the locator finds none; a found partition is whole sectors on the disk (end modulo 2^64) with a well-formed name |
| Driver.GetDefinitionPart | disk/part_env.c:72-270 | returns 0 exactly when the lookup succeeds, and then stores its offset, size and name (an unnamed entry keeps the old name); on -1 nothing is written |
| Driver.BoundedName | disk/part_env.c:279 | `strncpy` keeps the whole name when it has at most 32 characters, and otherwise exactly its first 32 |
| Driver.GetInfoEnv | disk/part_env.c:272-284 | returns 0 exactly when the lookup succeeds, and then sector size 512 and exact sector numbers of the found partition, ending on the disk modulo 2^64; on -1 nothing is written |
| Scenarios.SizeOfExabytes | disk/part_env.c:120-123 | `nE` is n EiB modulo 2^64 |
| Scenarios.WrapFirstEntry | disk/part_env.c:174-186 | `4E` fills a 4 EiB disk and leaves the running end at 4 EiB |
| Scenarios.WrapSecondEntry | disk/part_env.c:181-186 | `15E` after that wraps its end to 3 EiB, escapes the clamp, and is returned at 15 EiB |
| Scenarios.WrappedEndEscapesClamp | disk/part_env.c:174-186 | partition 2 of `4E,15E` on a 4 EiB disk is 15 EiB from 4 EiB on, so its offset plus its size lies past the disk's end |
| Scenarios.HexPrefixRejected | disk/part_env.c:97-131 | the size `0x400` is read as the digit `0` followed by the unaccepted suffix `x` |
| Scenarios.BracketsFirstEntry | disk/part_env.c:223-240 | the doubled `(` of an entry that is not requested is not checked |
| Scenarios.BracketsSecondEntry | disk/part_env.c:195-215 | the requested entry `2K(y)` is 2 KiB from 1 KiB on, named `y` |
| Scenarios.NameOfSecondEntry | disk/part_env.c:195-203 | `2K(y)` has no repeated bracket and is named `y` |
| Scenarios.OtherEntriesBracketsIgnored | disk/part_env.c:223-240 | partition 2 of `1K((x,2K(y)` is found although entry 1 repeats a bracket |
| Scenarios.FirstEntryRepeatsBracket | disk/part_env.c:224-228 | `1K((x` repeats `(` |

## Left out

- Logging (`pr_err`, `pr_warn`, `pr_debug`) is left out because it is output only and does not change any result.
- `part_print_env` (lines 286-294) is left out because it only prints the table, through repeated calls of the modelled parser.
- `part_test_env` and the `U_BOOT_PART_TYPE` registration (lines 298-314) are left out because they are dispatch; `part_test_env` is the test `DefinitionEnv(..).Some?`.
- The `@offset` branch (lines 138-173 and 241-249) is left out because it is dead: `offset_at` is never set, so `@` only ends a size's digits.
- The `0x` prefix of `simple_strtoul` is not modelled. U-Boot's `simple_strtoul` reads a leading `0x` as hexadecimal whatever base it is given, so `0x400` is 1024 bytes there. The model reads only the decimal digit prefix, so it rejects `0x400` as an invalid suffix (`HexPrefixRejected`). lib/strto.c is not part of this model.
- The 32-bit wrap of the entry counter `part_id` is not modelled, because it needs a definition of more than 2^32 characters.
- An entry closed before it has begun (`,,` or an empty string) makes the source read through a NULL pointer. The model reports `EmptyEntry` instead.
- The uninitialised name buffer of `part_get_info_env` is the parameter `stale`. `PartEnv.name` is the buffer's text before its terminator.
- `PART_NAME_LEN` (32) comes from include/part.h, which is not part of this model.
- `env_get` and `blk_get_uclass_name` are the maps of `Board`. A missing key is NULL.
- Layout.WalkSound: the end bound is `Wrap(offset + size) <= total`, not `offset + size <= total`, because the source computes the running end in 64-bit arithmetic and it can wrap (`WrappedEndEscapesClamp`).
- Layout.ResolveSound: the end bound holds only modulo 2^64, for the same reason.
- Driver.Lookup: the end bound holds only modulo 2^64, for the same reason.
- Driver.GetInfoEnv: the end bound holds only modulo 2^64, for the same reason.
- The `int` and `ulong` widths of `lba`, `blksz`, `hwpart` and `devnum` are modelled as given; wider intermediate types of other platforms are not.

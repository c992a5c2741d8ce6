# SAFE network membership simulation — a verified model

This project models the membership and partitioning engine of the SAFE
network simulations (`src/safenet`, written in Go).

Every vault has a 256-bit XOR name. It lives in the section whose prefix
its name starts with, and the prefixes of the sections tile the name space.
When a vault joins, it is routed to its section. A section refuses a second
infant when it is complete. A section splits into its two child prefixes once
both halves hold at least `SplitSize` (11) adults; every vault ages by one
at each level of section formation. A section merges with its sibling's
whole subtree when it falls below `GroupSize` (8) members. After each join
or departure, an event hash picks the youngest vault with `hash mod 2^age == 0`
for relocation. That vault moves to the neighbour section with the shortest
prefix, is renamed into the neighbour's prefix and ages by one. The network
counts joins, departures, splits, merges and relocations, and records how
many key bytes each relocation crossed.

## Structure

The Go code is split into modules as follows.

| module | file | Go file |
|---|---|---|
| `Common` | `common.dfy` | powers of two, bit-sequence prefixes, distinctness |
| `BigInt` | `bigint.dfy` | the `math/big` operations used: `SetBytes`, `SetBit`, `Xor`, `Text(2)` |
| `Random` | `random.dfy` | the generator `prng`, as an explicit object over a stream of draws |
| `XorNames` | `xorname.dfy` | `xorname.go` |
| `XorDistances` | `xordistance.dfy` | `xordistance.go` |
| `Prefixes` | `prefix.dfy` | `prefix.go` |
| `NetworkEvents` | `networkevent.dfy` | `networkevent.go` |
| `Vaults` | `vault.dfy` | `vault.go` (`Vault` is a class: sections share vaults by reference) |
| `Sections` | `section.dfy` | `section.go` (`Section` is a class whose `vaults` sequence is updated in place) |
| `Tries` | `trie.dfy` | prefix sets that tile a subtree of the name space |
| `SectionTables` | `sectiontable.dfy` | the `Sections` map of `network.go`: lookups, child and matching prefixes, member sets |
| `NeighbourChoice` | `neighbour.dfy` | the neighbour scan of `relocateVault` |
| `AgeReports` | `agereport.dfy` | the age histogram of `ReportAges` |
| `Networks` | `network.dfy` | `network.go` (`Network` is a class with the section table and the counters) |

A prefix is a datatype holding its bits and its key. The key is the
decimal bit length followed by the bits packed most-significant first
into bytes, as `setKey` builds it. The key is proved injective for every
length, so the table is a `map` from keys to sections, as in the source.

The central invariant is `Networks.Network.Valid`. It says two things:
- the resident prefixes tile the name space, and each key names its own prefix;
- every member is listed in exactly one section, records that section's prefix, and has a name below it.

`AddVault`, `RemoveVault`, merges, splits and relocations all preserve it.
No operation creates members. Each one bounds the network's new member set,
and states it exactly when no relocation intervenes. Every vault's age only
grows.

Two things are parameters rather than code:
- The eldership sort `forEldership` is not part of this model. The sort is a parameter (`Sections.EldershipOrder`) that must yield a permutation. The elders are the tail of the sorted list.
- The generator `prng` is a `Random.Prng` object. It reads an arbitrary stream of draws through a cursor.

The relocation cascade (`AddVault` → `relocateVault` → `RemoveVault`/`AddVault`)
has no decreasing measure in the source. The model bounds its depth with a
`fuel` parameter.

## Model

| member | source | states |
|---|---|---|
| Common.Pow2 | src/safenet/section.go:193-194 | `2^n` as used for the relocation divisor, at least 1 |
| Common.PrefixesComparable | src/safenet/prefix.go:107-117 | two prefixes of the same name are prefixes of one another |
| BigInt.FromBitsBound | src/safenet/xorname.go:31-32 | a name's integer read from k bits is below 2^k |
| BigInt.FromBytesBound | src/safenet/networkevent.go:21-24 | the integer `SetBytes` reads from b is below 2^(8·\|b\|) |
| BigInt.AllOnesBytes | src/safenet/networkevent.go:16 | bytes that are all 0xFF read as 2^(8·n) − 1 |
| BigInt.SetBitAtReads | src/safenet/xorname.go:58 | after `big.Int.SetBit(i, b)`, bit i is b and every other bit is unchanged |
| BigInt.SetBitAtBound | src/safenet/xorname.go:58 | setting a bit below k keeps a number below 2^k |
| BigInt.XorCommutes | src/safenet/vault.go:81-86 | XOR is commutative |
| BigInt.XorCancels | src/safenet/vault.go:81-86 | XOR with a twice cancels: a ⊕ (a ⊕ b) = b |
| BigInt.XorBound | src/safenet/section.go:199-200 | XOR of two numbers below 2^k is below 2^k |
| BigInt.Text2Length | src/safenet/xorname.go:41 | `Text(2)` of a number below 2^k has at most k digits |
| BigInt.BitChars | src/safenet/xorname.go:19-30 | the binary string built from a bit list has one '0'/'1' per bit, in order |
| Random.Prng.constructor | src/safenet/network.go:37-40 | a generator seeded with a stream starts at its first draw |
| Random.Prng.Intn | src/safenet/section.go:174 | a draw below n, taken from the next stream value; the cursor moves by one |
| Random.Prng.Bytes | src/safenet/networkevent.go:21-22 | count bytes, each the low byte of one stream value |
| Random.Prng.Read | src/safenet/networkevent.go:21-22 | `Read` fills the buffer with `Bytes` from the cursor and moves the cursor by the count |
| XorNames.XorName.SetBit | src/safenet/xorname.go:52-59 | bit i of `bits` becomes b and the others stay; bit i of the integer, counted from the least-significant end, becomes b and the others stay |
| XorNames.ParseBitChars | src/safenet/xorname.go:19-32 | parsing the binary string of a bit list gives the integer those bits spell most-significant first |
| XorNames.NewXorName | src/safenet/xorname.go:15-38 | a well-formed name: 256 bits, bit i the parity of the i-th draw, the integer equal to the bits read most-significant first; the cursor moves by 256 |
| XorNames.Zeros | src/safenet/xorname.go:42-44 | a string of m '0' characters |
| XorNames.PadLeftIsZeros | src/safenet/xorname.go:42-44 | left padding prepends exactly the missing '0's |
| XorNames.PaddedTextSpellsBits | src/safenet/xorname.go:40-46 | the padded `Text(2)` of the integer of a bit list spells that bit list |
| XorNames.BinaryString | src/safenet/xorname.go:40-46 | the result is `Text(2)` padded to 256 characters, exactly 256 for an integer below 2^256, and it spells `bits` for a well-formed name |
| XorNames.BigIntModInt64IsZero | src/safenet/xorname.go:64-69 | true iff bi is a multiple of i (i ≠ 0) |
| XorNames.IsLessThanStrictOrder | src/safenet/xorname.go:48-50 | `IsLessThan` is irreflexive, asymmetric and transitive |
| XorDistances.IsLessThan | src/safenet/xordistance.go:5-21 | the early-exit byte scan computes `Less`: shorter first, then the first differing byte decides |
| XorDistances.FirstDifferenceDecides | src/safenet/xordistance.go:11-20 | for equal lengths, x < y iff at the first differing position x's byte is smaller |
| XorDistances.LexIrreflexive | src/safenet/xordistance.go:11-20 | no sequence is below itself |
| XorDistances.LexTrichotomy | src/safenet/xordistance.go:11-20 | of two different sequences of equal length, exactly one is below the other |
| XorDistances.LexTransitive | src/safenet/xordistance.go:11-20 | the byte order is transitive |
| XorDistances.LessIsStrictTotalOrder | src/safenet/xordistance.go:5-21 | `IsLessThan` is irreflexive, total on distinct values, and transitive |
| XorDistances.ZeroValueIsLeast | src/safenet/xordistance.go:23-25 | the zero value (length 0) is below every non-empty distance and nothing is below it |
| Prefixes.Itoa | src/safenet/prefix.go:88 | the decimal rendering of a length has at least one digit |
| Prefixes.TotalBytes | src/safenet/prefix.go:62-70 | the least byte count whose bits cover the prefix: ceil(len/8) |
| Prefixes.ChunkValueBound | src/safenet/prefix.go:76-86 | a packed byte of 8 bits is below 256 |
| Prefixes.PackedBytes | src/safenet/prefix.go:72-87 | there are exactly `TotalBytes` packed bytes |
| Prefixes.MakePrefix | src/safenet/prefix.go:72-89 | a prefix with the given bits and its key set |
| Prefixes.NewBlankPrefix | src/safenet/prefix.go:12-18 | zero bits, key set, and it matches every name |
| Prefixes.Parent | src/safenet/prefix.go:54-60 | needs a bit; drops exactly the last bit |
| Prefixes.Sibling | src/safenet/prefix.go:45-52 | needs a bit; same length, same bits except the last, which is flipped |
| Prefixes.SetKey | src/safenet/prefix.go:72-89 | the nested packing loops compute `KeyOf(bits)` and leave the bits alone |
| Prefixes.ExtendLeft | src/safenet/prefix.go:20-30 | one bit longer, earlier bits unchanged, new last bit false, key set |
| Prefixes.ExtendRight | src/safenet/prefix.go:32-43 | one bit longer, earlier bits unchanged, new last bit true, key set |
| Prefixes.BinaryString | src/safenet/prefix.go:91-101 | one '0'/'1' per bit, in order |
| Prefixes.Matches | src/safenet/prefix.go:107-117 | true iff the prefix's bits are a prefix of the name's bits (so a longer prefix never matches) |
| Prefixes.ItoaInjective | src/safenet/prefix.go:88 | different lengths render to different decimal strings |
| Prefixes.ChunkValueInjective | src/safenet/prefix.go:76-86 | equal packed bytes come from equal bits |
| Prefixes.KeyOfInjective | src/safenet/prefix.go:72-89 | equal keys come from equal bit lists, for every length |
| Prefixes.KeyLayout | src/safenet/prefix.go:72-88 | a key is the decimal bit count followed by one byte per started group of eight bits, in order |
| Prefixes.EqualsIffSameBits | src/safenet/prefix.go:103-105 | `Equals` on key-set prefixes holds iff the bits are identical |
| Prefixes.ParentUndoesExtension | src/safenet/prefix.go:20-60 | `parent(extendLeft(p)) == parent(extendRight(p)) == p` |
| Prefixes.SiblingFacts | src/safenet/prefix.go:45-60 | sibling is an involution, swaps the two extensions of a prefix and keeps the parent |
| Prefixes.ExactlyOneExtensionMatches | src/safenet/prefix.go:20-43 | for a name matched by p and longer than p, exactly one of p's extensions matches it: the one with the name's next bit |
| Prefixes.ExtensionMatchFacts | src/safenet/prefix.go:107-117 | a match of an extension implies a match of p; a prefix longer than the name never matches |
| NetworkEvents.NetworkEvent.HashModIsZero | src/safenet/networkevent.go:28-33 | true iff the hash is a multiple of the divisor |
| NetworkEvents.LargestHashValue | src/safenet/networkevent.go:16 | 32 bytes of 0xFF |
| NetworkEvents.LargestHashValueIsMaximum | src/safenet/section.go:186 | `largestHashValue` reads as 2^256 − 1 and bounds the XOR of any two 256-bit numbers |
| NetworkEvents.NewNetworkEvent | src/safenet/networkevent.go:18-26 | the hash is the integer of the 32 bytes drawn and is below 2^256; no sections, no pick |
| NetworkEvents.HashModPowersOfTwo | src/safenet/networkevent.go:28-33 | divisibility by 1 always holds; divisibility by 2^(k+1) implies divisibility by 2^k |
| Vaults.RandomStorageSize | src/safenet/vault.go:109-114 | one of the five starting sizes, chosen by the next draw |
| Vaults.Vault.constructor | src/safenet/vault.go:27-34 | a well-formed random name, no prefix yet, age 1, not an attacker, nothing used |
| Vaults.Vault.SetPrefix | src/safenet/vault.go:46-48 | replaces only the prefix |
| Vaults.Vault.IncrementAge | src/safenet/vault.go:50-52 | raises the age by exactly one and changes nothing else |
| Vaults.Vault.RenameWithPrefix | src/safenet/vault.go:58-63 | the new 256-bit name starts with p and takes its other bits from the draws; the integer's low bits are p's bits (the `SetBit` indexing); age, prefix and attacker flag untouched |
| Vaults.ResolveAgeTiebreaker | src/safenet/vault.go:76-90 | the XORs cancel: true iff vi's name is numerically below vj's |
| Vaults.OldestFirstIsStrictOrder | src/safenet/vault.go:65-74 | `oldestFirst.Less` is irreflexive, asymmetric and transitive, total on distinct names, and puts older vaults first |
| Sections.Views | src/safenet/section.go:141 | what the eldership sort sees of each member, in order |
| Sections.Permute | src/safenet/section.go:141 | the list the sort leaves: entry i is the perm[i]-th member |
| Sections.PermutePreserves | src/safenet/section.go:141 | sorting keeps the member set and distinctness |
| Sections.EldersOf | src/safenet/section.go:142-148 | the last min(n, 8) members |
| Sections.CountAdults | src/safenet/section.go:227-235 | the adult count is at most the member count |
| Sections.CountAdultsMatchingBound | src/safenet/section.go:241-261 | an adult can only match a child prefix no longer than its name |
| Sections.AttackedMonotone | src/safenet/section.go:151-166 | more attackers among the same number of elders never turn "attacked" into "not attacked" |
| Sections.QuorumExamples | src/safenet/section.go:160-165 | 5 attackers of 8 elders attack, 4 of 8 do not, no elders never do |
| Sections.AgeDivisor | src/safenet/section.go:192-194 | `1 << uint(age)`: 2^age for ages representable as a 64-bit `uint` |
| Sections.AgeZeroQualifies | src/safenet/section.go:192-195 | a vault of age 0 qualifies under every event, its divisor being 1 |
| Sections.CandidateDependsOnHash | src/safenet/section.go:178-221 | the relocation rule depends on the event only through its hash |
| Sections.HashModSmallerPower | src/safenet/section.go:193-207 | a hash divisible by 2^a is divisible by 2^b for every b ≤ a |
| Sections.CandidateIsYoungest | src/safenet/section.go:178-221 | a pick has the least age of the whole section, not only of the qualifying members |
| Sections.IndexOf | src/safenet/section.go:70-71 | the first position holding v |
| Sections.RemoveFirst | src/safenet/section.go:68-75 | removing the first occurrence: unchanged if v is absent, one shorter otherwise, and for a distinct list exactly v leaves |
| Sections.RemoveFirstAt | src/safenet/section.go:70-74 | removing the first occurrence is the splice `s[:i] ++ s[i+1:]` at v's first index |
| Sections.SplitShapeJoin | src/safenet/section.go:100-106 | two sides' sections, told apart by prefix, stay told apart when concatenated and lie strictly below the parent |
| Sections.CountBelow | src/safenet/section.go:263-283 | counts the vaults whose names a prefix matches |
| Sections.Section.constructor | src/safenet/section.go:18-21 | a section with the prefix and no vaults |
| Sections.Section.TotalAdults | src/safenet/section.go:227-235 | the number of members older than 4 |
| Sections.Section.LeftTotalAdults | src/safenet/section.go:241-250 | the adults whose names match the left child prefix |
| Sections.Section.RightTotalAdults | src/safenet/section.go:252-261 | the adults whose names match the right child prefix |
| Sections.Section.HasVaultAgedOne | src/safenet/section.go:127-134 | true iff some member has age 1 |
| Sections.Section.IsComplete | src/safenet/section.go:122-125 | true iff exactly 8 members are adults |
| Sections.Section.Elders | src/safenet/section.go:136-149 | reorders the members by the eldership order (same members, same count) and returns the last min(n, 8) |
| Sections.Section.LeftTotalElders | src/safenet/section.go:263-272 | after the sort, the elders matching the left child prefix, at most 8 |
| Sections.Section.RightTotalElders | src/safenet/section.go:274-283 | after the sort, the elders matching the right child prefix, at most 8 |
| Sections.Section.AdultsSplitDue | src/safenet/section.go:111-113 | true iff both child prefixes hold at least 11 adults |
| Sections.Section.ShouldSplit | src/safenet/section.go:109-120 | true iff both child prefixes hold at least 11 adults: the elder branch can never fire (at most 8 elders); when false, the members are left sorted by the eldership order |
| Sections.Section.IsAttacked | src/safenet/section.go:151-166 | after the sort, true iff attacking elders · 2 > elders · 1 |
| Sections.Section.TotalElders | src/safenet/section.go:237-239 | min(n, 8), the members left sorted |
| Sections.Section.ShouldMerge | src/safenet/section.go:223-225 | true iff fewer than 8 members, the members left sorted |
| Sections.Section.GetRandomVault | src/safenet/section.go:168-176 | none (and no draw) for an empty section, else the member at the next draw modulo the size |
| Sections.Section.VaultForRelocation | src/safenet/section.go:178-221 | a pick is a member with hash mod 2^age = 0; with ages below the sentinel there is a pick iff some member qualifies, and it has the least age among qualifiers and the least name ⊕ hash among those of that age |
| Sections.Section.RemoveVault | src/safenet/section.go:68-84 | the first member that is v itself (by reference) is removed, the rest keep their order; the event carries the relocation pick of the remaining members and no sections |
| Sections.Section.RelocationEvent | src/safenet/section.go:60-64 | a fresh event whose pick follows the relocation rule over the members |
| Sections.Section.AddVault | src/safenet/section.go:40-66 | refuses exactly when v has age 1, a member has age 1 and exactly 8 members are adults, changing nothing; otherwise v joins and either the section splits into sections that hold exactly the members plus v, or v is appended (members sorted by the eldership order) with a relocation pick; ages only grow |
| Sections.Section.Refuses | src/safenet/section.go:45 | the refusal condition |
| Sections.Section.Accept | src/safenet/section.go:50-65 | the accepted path: a split outcome, or v appended with its prefix set and a relocation pick |
| Sections.Section.Enlist | src/safenet/section.go:50-51 | v records the section's prefix and is appended; its age and the other members are untouched |
| Sections.Section.SplitOrDraw | src/safenet/section.go:54-65 | splits when due, forming sections below the prefix; otherwise draws a relocation pick from the sorted members |
| Sections.Section.Split | src/safenet/section.go:86-107 | the members are formed into fresh sections that tile the names below the prefix, all strictly longer, no pick; ages only grow |
| Sections.SplitRight | src/safenet/section.go:101-106 | the right half is formed and appended to the left half's sections |
| Sections.Listing | src/safenet/section.go:102-106 | the concatenated sections are the event's new sections |
| Sections.Partition | src/safenet/section.go:89-99 | each vault goes to the child prefix its name matches; vaults matching neither are dropped |
| Sections.ShareKeeps | src/safenet/section.go:89-99 | a side keeps exactly the members its prefix matches, distinct |
| Sections.ShareDivides | src/safenet/section.go:89-99 | the two sides are distinct, match their prefixes, and divide the members |
| Sections.NewSection | src/safenet/section.go:17-38 | every given vault is aged and recorded; the sections formed tile the names below the prefix and hold the vaults; either one section at the prefix with every vault aged by exactly one, or only longer prefixes |
| Sections.Settle | src/safenet/section.go:30-37 | the new section is returned whole, or it splits |
| Sections.Whole | src/safenet/section.go:35-37 | a section that does not split is the only section formed |
| Sections.Admit | src/safenet/section.go:22-29 | each vault is aged by one, records the prefix and is appended in order |
| Sections.FormedSingle | src/safenet/section.go:35-37 | a single section whose members record its prefix forms its prefix |
| Sections.FormedJoin | src/safenet/section.go:100-106 | sections formed on the two sides of a split form the parent from the members divided between them |
| Tries.Subtree | src/safenet/network.go:101-108 | the resident prefixes below r |
| Tries.TilingSingleton | src/safenet/section.go:35-37 | one prefix tiles its own subtree |
| Tries.TilingJoin | src/safenet/section.go:100-106 | tilings of the two children of a root tile the root |
| Tries.TilingReplaceSubtree | src/safenet/network.go:61-69 | replacing a subtree of a tiling by a tiling of its root leaves a tiling |
| Tries.SubtreeOfMember | src/safenet/network.go:94-99 | in a prefix-free set, a member's subtree is the member alone |
| Tries.SubtreeOfParent | src/safenet/network.go:89-109 | the parent's subtree is the prefix and its sibling's subtree |
| Tries.TilingRoutesUniquely | src/safenet/network.go:275-294 | every 256-bit name lies below exactly one prefix of a tiling |
| SectionTables.Resident | src/safenet/network.go:47 | a key is in the table iff its bits are a resident prefix |
| SectionTables.ChildPrefixes | src/safenet/network.go:252-273 | returns only resident prefixes |
| SectionTables.ChildPrefixesFan | src/safenet/network.go:252-273 | the result is strictly below p, prefix-free, and never descends past a resident prefix |
| SectionTables.ChildPrefixesFind | src/safenet/network.go:252-273 | every resident prefix strictly below p is found |
| SectionTables.ChildPrefixesLeft | src/safenet/network.go:252-273 | a prefix found below the left child is that child when it is resident, and is otherwise found below it |
| SectionTables.ChildPrefixesRight | src/safenet/network.go:252-273 | the same for the right child |
| SectionTables.ChildPrefixesStop | src/safenet/network.go:252-273 | the search stops at the first resident prefix on each branch: no resident prefix lies strictly between p and a prefix it finds |
| SectionTables.ChildPrefixesAreSubtree | src/safenet/network.go:252-273 | the result is exactly the resident prefixes strictly below p |
| SectionTables.Filed | src/safenet/network.go:64-66 | installing sections adds their keys |
| SectionTables.FiledFacts | src/safenet/network.go:64-66 | each installed section is found under its key; other keys keep their section |
| SectionTables.ResidentAncestorsMembers | src/safenet/network.go:227-244 | the collected prefixes are exactly the resident prefixes among p's leading bits |
| SectionTables.MatchingPrefixesFacts | src/safenet/network.go:225-250 | each result is resident and either a prefix of p or strictly below p, the latter only when no prefix of p is resident |
| SectionTables.MatchingResident | src/safenet/network.go:225-250 | each result is the prefix of the section under its key |
| SectionTables.MatchingClosed | src/safenet/network.go:225-250 | asking again at a matching prefix finds only prefixes the first question found |
| SectionTables.MatchingNonEmpty | src/safenet/network.go:225-273 | on a tiled table every prefix has at least one matching prefix |
| SectionTables.Route | src/safenet/network.go:275-294 | the key of the resident prefix a name lies below |
| SectionTables.RouteUnique | src/safenet/network.go:275-294 | that prefix is unique |
| SectionTables.SizeSumPick | src/safenet/network.go:315-321 | the summed sizes split off one section |
| SectionTables.MembersSplitAt | src/safenet/network.go:67-68 | the members are those of the other sections plus those of one section |
| SectionTables.MembersOfInstalled | src/safenet/network.go:64-66 | installing sections adds exactly their members |
| SectionTables.MemberHome | src/safenet/network.go:79 | a member's prefix key names the one section that lists it |
| SectionTables.SizeSumCountsMembers | src/safenet/network.go:315-321 | summed section sizes count the members |
| SectionTables.DifferingBytes | src/safenet/network.go:189-195 | the differing positions counted are at most the length compared |
| SectionTables.DifferingBytesFacts | src/safenet/network.go:184-195 | zero iff the heads are equal; symmetric |
| SectionTables.GroupListed | src/safenet/network.go:93-108 | concatenating sections' vault lists gives each of their members exactly once |
| SectionTables.ListedApart | src/safenet/network.go:93-108 | one merged section's members are not in the others |
| SectionTables.MembersSplitBy | src/safenet/network.go:99-111 | the members are those outside a set of keys plus those under it |
| NeighbourChoice.ConsiderAsWritten | src/safenet/network.go:161-178 | as written: a taken shorter prefix records its length but keeps the old count |
| NeighbourChoice.Consider | src/safenet/network.go:159-178 | the corrected step: a taken candidate records both length and count |
| NeighbourChoice.ScanAsWrittenStep | src/safenet/network.go:159-179 | the as-written scan extends one candidate at a time |
| NeighbourChoice.ScanAsWrittenShortest | src/safenet/network.go:159-179 | as written, the scan's length bound reaches the shortest candidate and never rises, and a pick has that length |
| NeighbourChoice.ScanPicksBest | src/safenet/network.go:159-179 | the corrected scan picks a candidate no worse than any other: shortest prefix, then fewest vaults |
| NeighbourChoice.ScanAsWrittenMissesFewest | src/safenet/network.go:161-165 | on two prefixes of equal length with 12 and 20 vaults, the scan as written picks the 20, the corrected one the 12 |
| AgeReports.CountTotalPick | src/safenet/network.go:296-313 | the histogram total splits off one age |
| AgeReports.CountedFacts | src/safenet/network.go:303-308 | counting an age adds it as a key and raises the total by one, all counts positive |
| AgeReports.PerAgeStep | src/safenet/network.go:303-308 | counting an age raises exactly that age's count |
| AgeReports.CountStep | src/safenet/network.go:303-308 | a counted age gets a key once, in order of first appearance |
| AgeReports.Insert | src/safenet/network.go:311 | insertion keeps ascending order and adds exactly one element |
| AgeReports.SortAges | src/safenet/network.go:311 | `sort.Sort`: ascending and a permutation of the keys |
| AgeReports.AscendingDistinct | src/safenet/network.go:311 | ascending distinct keys are strictly increasing |
| AgeReports.SameMultisetDistinct | src/safenet/network.go:311 | a permutation of distinct keys is distinct with the same elements |
| Networks.Flipped | src/safenet/network.go:135-148 | the bits with exactly bit i flipped |
| Networks.RoutingFindsHome | src/safenet/network.go:278-288 | on a tiled table, some leading part of a 256-bit name is resident |
| Networks.SplitTable | src/safenet/network.go:61-69 | after a split, installing the new sections and deleting the old key keeps the table valid and replaces the old section's members by the split members |
| Networks.SplitKeeps | src/safenet/network.go:61-69 | installing the new sections and deleting the old key leaves every other section in place and unchanged |
| Networks.JoinSetting | src/safenet/network.go:47-59 | a new vault is in no section, and the section's list with it appended is distinct |
| Networks.HomeOf | src/safenet/network.go:79 | a member's prefix key finds its section, which lists it |
| Networks.LeaveSetting | src/safenet/network.go:79-85 | the departing vault is in no other section |
| Networks.AgesAlongOf | src/safenet/network.go:300-309 | the ages met along a list are the ages of its members |
| Networks.BlankAlone | src/safenet/network.go:87-91 | with more than one section no section has the blank prefix, so `parent`/`sibling` have a bit to work on |
| Networks.PartnersFacts | src/safenet/network.go:94-109 | the sections merged with a prefix are its sibling, or every resident prefix below the sibling |
| Networks.MergeGroup | src/safenet/network.go:93-111 | the prefix and its partners are distinct and are exactly the keys below the parent |
| Networks.MergeSetting | src/safenet/network.go:93-108 | the gathered vaults are distinct, lie below the parent, and are the members under the parent |
| Networks.MergeTable | src/safenet/network.go:87-118 | the sections below the parent are replaced by the fresh sections `newSection` forms at the parent from the vaults gathered from the section and its partners; the table stays valid; the members stay the same; ages only grow |
| Networks.MergeInto | src/safenet/network.go:110-118 | the gathered vaults are formed at the parent and installed over the rest of the table |
| Networks.MergeInstall | src/safenet/network.go:110-117 | installing the merged sections keeps the table valid with the same members |
| Networks.FileAll | src/safenet/network.go:115-117 | the install loop files each section under its key |
| Networks.FlippedPrefix | src/safenet/network.go:137-148 | the loop builds the prefix of the flipped bits |
| Networks.HopCount | src/safenet/network.go:184-195 | the number of differing key bytes over the shorter key's length |
| Networks.GrewAlong | src/safenet/network.go:21-26 | counters that only grow compose |
| Networks.ReportStep | src/safenet/network.go:300-310 | after a section is counted, the keys are the ages of the members seen and the total plus the unseen sizes is the network size |
| Networks.AgedAtAlong | src/safenet/network.go:301-309 | the times an age occurs along a distinct list is the number of its members of that age |
| Networks.AgesUnderCount | src/safenet/network.go:300-310 | the same over the sections visited |
| Networks.AgesUnderStep | src/safenet/network.go:300-310 | visiting one more section adds exactly its members of each age to the count |
| Networks.AgesReported | src/safenet/network.go:296-313 | after all sections, each age's count is the number of members of that age |
| Networks.CountAges | src/safenet/network.go:301-309 | the inner loop adds each member's age once, keys listed once, counts positive, total raised by the list length |
| Networks.Network.constructor | src/safenet/network.go:30-35 | no sections, every counter zero, no hops |
| Networks.Network.TotalVaults | src/safenet/network.go:315-321 | the summed section sizes, which on a valid network is the number of members |
| Networks.Network.ReportAges | src/safenet/network.go:296-313 | the keys are the members' ages, strictly increasing; every count is positive; the counts sum to the network size; on a valid network each count is the number of members of that age |
| Networks.Network.TallyAges | src/safenet/network.go:297-310 | the outer loop visits every section once and counts every member's age |
| Networks.Network.GetRandomSection | src/safenet/network.go:210-215 | the section a drawn name routes to, whose prefix spells the first draws; on a valid non-empty network there always is one |
| Networks.Network.GetRandomVault | src/safenet/network.go:219-222 | a pick is a member of the network |
| Networks.Network.HasMoreThanOneVault | src/safenet/network.go:331-340 | true iff the network holds more than one vault |
| Networks.Network.TotalSections | src/safenet/network.go:323-329 | the number of sections |
| Networks.Network.HasMoreThanOneSection | src/safenet/network.go:342-351 | true iff there is more than one section |
| Networks.Network.HasOneSection | src/safenet/network.go:353-362 | true iff there is exactly one section |
| Networks.Network.GetPrefixForXorname | src/safenet/network.go:275-294 | matches x; it is the shortest resident prefix of x if there is one; otherwise the blank prefix when more than one vault exists, else all of x; on a valid network it is the unique section x lies below |
| Networks.ShortestResident | src/safenet/network.go:275-294 | on a tiled table, a resident prefix of x with no shorter resident prefix, or any prefix of x when none is resident, is resident and is the one x routes to |
| Networks.Network.GetMatchingPrefixes | src/safenet/network.go:225-250 | the resident leading prefixes of p, shortest first, else the resident prefixes below p |
| Networks.Network.ApplySplit | src/safenet/network.go:61-69 | the split is counted, the new sections are installed, the old key deleted; the table stays valid and the members are the others plus the split members |
| Networks.Network.AdoptSplit | src/safenet/network.go:62-68 | the table becomes the split table and the split count rises by one |
| Networks.Network.Merge | src/safenet/network.go:87-118 | the merge count rises by one and the sections below the parent are replaced by fresh ones; valid, same members, ages only grow |
| Networks.Network.AdoptMerged | src/safenet/network.go:88-117 | the table becomes the merged table and the merge count rises by one |
| Networks.Network.Ranks | src/safenet/network.go:159-161 | each candidate's prefix length and vault count |
| Networks.Network.ScanNeighbours | src/safenet/network.go:159-179 | one pass over the candidates is the scan as written; the length bound ends at or below every candidate's length |
| Networks.Network.SmallestNeighbour | src/safenet/network.go:129-181 | the chosen section is resident and is either the vault's own or the section of a prefix matching one of the flipped prefixes; on a tiled table with a non-blank prefix it is always such a neighbour and never has the vault's own prefix; with a blank prefix it is the vault's own; its prefix is no longer than any candidate for any flipped bit |
| Networks.Network.FollowFlip | src/safenet/network.go:135-180 | for one flipped bit, every prefix matching the flipped prefix is scanned, each pick is one of them, and the length bound ends at or below each of their lengths |
| Networks.Network.ScanFlip | src/safenet/network.go:156-179 | one pass keeps the pick among the flipped prefix's matches, the minima only fall, and the prefix followed changes only for a strictly better rank |
| Networks.Network.ScanStep | src/safenet/network.go:159-179 | a pass over matches of the flipped prefix leaves the pick the own section while nothing was taken and a neighbour once something was |
| Networks.NeighbourElsewhere | src/safenet/network.go:134-148 | the section of a prefix matching a flipped prefix never has the unflipped prefix |
| Networks.Network.Tally | src/safenet/network.go:21-26 | the counters as one value, the abstraction in which AddVault, RemoveVault and Destination state how the counters change |
| Networks.Network.AddVault | src/safenet/network.go:42-75 | keeps the table valid; the members grow by at most v; no counter falls and joins rise; a refusal happens only on a non-empty table and changes neither the split nor the relocation count; without a relocation: the members grow by exactly v unless refused, joins rise by one, splits by at most one, the other counters are unchanged, v keeps its name, every section other than the one v's name routes to is kept, and that one stays unless a split was counted, in which case its key is gone; ages only grow |
| Networks.Network.Join | src/safenet/network.go:43-69 | joins rise by one; the members grow by v unless refused; a refusal leaves the table unchanged; splits rise by one exactly when new sections came; every section but the one v's name routes to is kept, and that one's key is gone exactly when a split was counted; v keeps its name |
| Networks.Network.CountJoin | src/safenet/network.go:44 | joins rise by one; nothing else changes |
| Networks.Network.Enter | src/safenet/network.go:45-69 | the members grow by v unless refused; a refusal leaves the table unchanged; every section but the one v's name routes to is kept, and that one's key is gone exactly when new sections came; on an empty table all sections are fresh; splits rise by one exactly when new sections came; a relocation pick is a member |
| Networks.Network.EnterAt | src/safenet/network.go:47-69 | the same once the prefix is looked up: the section filed under it takes v, or on an empty table a seeded blank section does |
| Networks.Network.Seed | src/safenet/network.go:49-56 | an empty table gets one fresh, empty section at the blank prefix, its only section |
| Networks.Network.Inaugurate | src/safenet/network.go:48-69 | on an empty table v is placed and never refused: it becomes the only member, and every section is fresh |
| Networks.Network.PlaceFirst | src/safenet/network.go:58-69 | the only, empty section never refuses v; v becomes the only member; every section is that one or fresh |
| Networks.Network.RemoveVault | src/safenet/network.go:77-124 | keeps the table valid; the members shrink by at least v; nothing changes but the departure count when v's prefix has no section; when a merge is due, the sections below the parent of v's section give way to the fresh merged sections and nothing is relocated; with neither a merge nor a relocation the table is unchanged; without a relocation the members are exactly those less v and the counters are exact: departures rise by one and merges by one iff a merge was due; ages only grow |
| Networks.Network.CountDeparture | src/safenet/network.go:78 | departures rise by one; nothing else changes |
| Networks.Network.Withdraw | src/safenet/network.go:84-123 | the section drops v; a due merge replaces the sections below the parent by fresh ones and relocates nothing; with neither a merge nor a relocation the table is unchanged; without a relocation the members are those less v and only the merge count may rise |
| Networks.Network.Rebalance | src/safenet/network.go:87-123 | when a merge is due, the sections below the parent of p give way to the fresh merged sections, merges rise by one and nothing is relocated; otherwise the pick is relocated, and without one the table and every counter are unchanged |
| Networks.Network.Depart | src/safenet/network.go:85-87 | v leaves; a merge is due iff fewer than 8 members remain and there is more than one section |
| Networks.Network.Leave | src/safenet/network.go:85-87 | v leaves its section; the shrink test holds iff fewer than 8 remain |
| Networks.Network.Shrinks | src/safenet/network.go:87 | `shouldMerge` on the section: fewer than 8 members, members left sorted |
| Networks.Network.Relocate | src/safenet/network.go:126-208 | the relocation is counted and one hop recorded; the table stays valid, members are not created, ages only grow |
| Networks.Network.Move | src/safenet/network.go:197-204 | w leaves and is added again with a higher age; the table stays valid, no member is created, counters only grow |
| Networks.Network.Evict | src/safenet/network.go:197-198 | `RemoveVault` as the relocation calls it: w is no longer a member, the table stays valid, counters and ages only grow |
| Networks.Network.Destination | src/safenet/network.go:127-196 | relocations rise by one and exactly one hop count is appended: the differing bytes of the old and new keys over the shorter length; the target is a neighbour of the vault's prefix and not its own prefix when that prefix has a bit, and the vault's own section when it is blank |
| Networks.Network.Rejoin | src/safenet/network.go:199-207 | w's age ends above where it started and, unless a nested relocation moved it again, its name lies below p; the table stays valid; at most w is added |
| Networks.Network.Place | src/safenet/network.go:58-69 | the section takes v in, refusing exactly as `addVault` does; a split is counted and installed: the table becomes the old one with the new sections filed and the old key deleted, and without a split it is unchanged; the members grow by v unless refused |
| Networks.Network.Offer | src/safenet/network.go:58-60 | the section's decision, with the rest of the table unchanged |
| Networks.Network.Take | src/safenet/network.go:59 | `addVault` on the routed section |

## Left out

- Prefixes.Sibling: a pure function. The source's `sibling` (src/safenet/prefix.go:45-49) also flips the last bit in the slice it shares with the caller. In `RemoveVault` that write lands in the storage of the merging section and the departing vault. Both are deleted or re-prefixed right after (network.go:111-113, section.go:27). A section that shares that storage by `parent` is shorter and does not see the flipped position. The model therefore leaves the write out.
- Networks.Network.AddVault: relocation is skipped when `fuel` reaches 0. The source's cascade has no bound, so runs deeper than the fuel are not modelled.
- Networks.Network.RemoveVault: relocation is skipped when `fuel` reaches 0, as for AddVault.
- Networks.Network.Rebalance: relocation is skipped when `fuel` reaches 0, as for AddVault.
- Random.Prng.Read: one stream value per byte. Go's `rand.Read` packs seven bytes per 63-bit draw and keeps leftovers across calls.
- Random.Prng.Intn: the next stream value modulo n, not Go's `Int31n`. Runs are functions of an abstract stream, not of Go's generator with its seed.
- Networks.Network.GetRandomVault: returns no vault where the source would dereference a nil section, that is, when no section matches.
- The eldership sort `forEldership` is not part of this model. It is a parameter that must return a permutation, and the elders are its tail.
- Networks.Network.ReportAges: the per-age counts are stated for a valid network. The unused local `count` of the source is not modelled.
- Networks.Network.AddVault: the counters are exact only when no relocation happened. With relocations they are stated to grow, and the member set may lose the relocated vault when its re-addition is refused.
- Networks.Network.RemoveVault: the counters and the member set are exact only when no relocation happened, as for AddVault.
- Networks.Network.Relocate: the new section of the relocated vault is not stated. Ages and the member set are stated as bounds (ages only grow, no member is created).
- Networks.Network.Rejoin: the rename below the chosen prefix is stated only when no nested relocation moved the vault again. The age increment by one is stated as an increase.
- Networks.Network.Move: the age increment by one is stated as an increase, and the rename is not stated (it is stated on Rejoin, when no nested relocation moved the vault again).
- Networks.Network.Place: the ages of other sections' members are stated by the frame (`modifies`) only. Networks.Network.Offer and Networks.Network.Take state the ages for the section's members and v.
- Networks.Network.Merge: it states the table's shape and that the new sections are fresh. That they are the sections formed at the parent from the merged members is stated on Networks.MergeTable and Networks.MergeInto.
- Sections.Section.VaultForRelocation: least age and least XOR distance are stated when every age is below `math.MaxUint32`. With a larger age the source's sentinel skips that vault.
- Console warnings (`fmt.Println`) are not modelled. The paths that print them are.
- Vault storage figures are not modelled beyond their initial values. This covers `UsedMb`, `SpareMb`, `StoreChunk` and `Operator`, along with the economic layer of `network.go`: `DoRandomPut`, `DoRandomGet`, `AvgSafecoinPerMb`, `ForceCreateSafecoin` and `TotalSafecoins`. They are float bookkeeping over members that are not part of this model (`PutChunk`, `FarmDivisor`, `SafecoinPerMb`).
- Slices are not shared in the model. `Vaults` of a section and the list returned by `elders()` are one value. The model returns the elders as a copy of the sorted tail.

## Findings

| source | as written | input that shows it | evidently intended | confidence | as-written member | corrected member |
|---|---|---|---|---|---|---|
| src/safenet/network.go:161-165 | taking a neighbour for its shorter prefix updates `minNeighbourPrefix` and `smallestNeighbour` but not `minNeighbourVaults`, so the count from an earlier candidate (or `math.MaxUint32`) survives | two resident neighbours "10" (12 vaults) and "11" (20 vaults) scanned in that order: "10" is taken for its length with the count left at `MaxUint32`, then "11" is taken because 20 < `MaxUint32` | among equally short prefixes, the section with the fewest vaults (the comment at network.go:158) | not executed | NeighbourChoice.ScanAsWrittenMissesFewest | NeighbourChoice.ScanPicksBest |

The network model (`Networks.Network.ScanNeighbours`) follows the scan as
written. So `Networks.Network.SmallestNeighbour` promises only what the code
delivers: a neighbour section (the section of a prefix matching one of the
flipped prefixes) whose prefix is the shortest among the candidates, and not
the fewest vaults among those. The corrected scan
`NeighbourChoice.Scan` is proved to pick a candidate no worse than any other.

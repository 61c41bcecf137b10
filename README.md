# Star tracker: geometric voting, catalog bytestream, SPI packet and capture names

This project models the sequential core of a small star tracker in Dafny and proves
properties of the model. The core has five parts. Each is modelled the way its own
file does it. The two voting variants disagree with each other, and the model keeps
both as they are.

- **Geometric voting, firmware variant** (`GvalgEmbedded`, `stm-32/Core/Src/gvalg.c`).
  - Each image pair's millidegree angle becomes a 0.1° bin: the value is truncated to
    `int`, then divided by 100.
  - The bin's address comes from `bin_angle_to_address_lut`, and its count byte from
    `catalog_bytestream`.
  - The inner loop starts at `bin_addr + 1`, advances `j` twice per iteration and runs
    while `j <= bin_addr + count + 4`. It therefore reads `(count + 3) / 2 + 1` pairs,
    not `count`.
  - Each pair read writes the same two bytes into both endpoints' 512-slot vote rows
    (`v`, `k_n` as `array2`/`array`).
  - `setmode` is the O(k²) nested loop with a strict `>`, which makes it return the
    earliest most frequent vote.
  - The verification round scans catalog rows 0..255 for each identity. It keeps the
    last matching row, then bumps `v2` at both ends when `|d_cat - d_image| < 1`.
- **Geometric voting, desktop variant** (`GvalgDesktop`, `geometric-voting/gvalg.cpp`).
  - Rows `bsearch(angle - loc_err) .. bsearch(angle + loc_err)` of `tab_cat` vote. The
    writes go to slots `2k+1` and `2k+2`, so slot 0 of every row keeps its calloc zero.
  - The first-zero scan therefore stops at 0, and `mode` always receives length 0.
  - Verification skips every pair that has centroid 0 at either end (`!= 0`). It uses
    the identity directly as a catalog row index and a strict open tolerance interval.
  - `bsearch` and `mode` are not defined in the repository. They are uninterpreted
    function parameters.
- **Catalog tabulator** (`CatalogTabulator`, `catalog/tabulate-catalog.py`, steps 1 to 6).
  - A stable sort by HIP ID, then the `hip_to_index` dictionary and the 256-star limit.
  - The i<j pair enumeration with its 84° cut, then binning into 840 bins.
  - The bytestream with its bin-to-address table, and the binned CSV's header
    addresses.
  - Both `index_to_hip_lut` tables and `catalog_bytes`.
  - Module `CatalogLookup` connects this producer to the firmware that consumes its
    output.
- **SPI centroid packet** (`SpiProtocol`, `raspberry-pi/spi-protocol.py`, `send_centroids`).
  - The buffer exactly as the code builds it, with little-endian uint32 coordinates.
  - The `struct.pack` error path.
  - The 32-byte chunking.
- **Capture file names** (`ImageCapture`, `raspberry-pi/imagecapture.py`,
  `get_incremented_timestamped_name`).
  - The regular expression's match is written out by hand, followed by `max + 1`.
  - The number is formatted with `:03d`.
  - The directory listing and the timestamp are parameters.

Float computations enter only as given values or as function parameters. These are
`acos` of a dot product (`catAngle`, `pairAngle`), Python's `int(angle // 0.1)`
(`binOf`) and `float_to_byte_unit_vector` (`toByte`). Out-of-bounds reads and writes,
which are undefined in the C code, are modelled as an explicit failure outcome
(`None`, or `defined == false`) and are not excluded by a precondition.

Where the system's documentation of the algorithm and its code differ, the model follows the code:

- It uses the firmware's millidegree angles, where the documentation has radians.
- It keeps both tolerance tests as strict comparisons (`< 1` and the open interval).
  The documentation uses `≤`.
- It keeps the desktop variant's use of the identity as a catalog row index. The
  documentation calls for a lookup by ID.
- Vote-row overflow is undefined behaviour in the code, not a reported error.
- The desktop resolver never sees any votes.

## Model

| member | source | states |
|---|---|---|
| Common.TruncToInt | stm-32/Core/Src/gvalg.c:91 | C's double-to-int conversion truncates toward zero: bounds on the result for positive and negative inputs |
| Common.CDiv | stm-32/Core/Src/gvalg.c:93 | C's integer division truncates toward zero: the remainder `a - q·b` has the sign of the dividend and is smaller than the divisor in magnitude (so -50/100 is 0 and -150/100 is -1) |
| Common.CountOf | stm-32/Core/Src/gvalg.c:226-230 | occurrence count of a value, never more than the length |
| GvalgEmbedded.SetMode | stm-32/Core/Src/gvalg.c:220-237 | the nested counting loops return the mode scan's result as `uint8_t`; numsize ≤ 0 gives 0 |
| GvalgEmbedded.ModeIsEarliestMostFrequent | stm-32/Core/Src/gvalg.c:225-236 | on non-empty input the result is s[k], whose count is maximal over all values, and every earlier element has a strictly smaller count (a later tie never wins) |
| GvalgEmbedded.ModeOfIsZeroOrVote | stm-32/Core/Src/gvalg.c:221-237 | an empty vote list gives 0; otherwise the result is one of the votes |
| GvalgEmbedded.ModeOfBytesFitsByte | stm-32/Core/Src/gvalg.c:220 | when every vote is a byte, the mode is in 0..255 and the `uint8_t` conversion does not change it |
| GvalgEmbedded.IdentitiesAreModes | stm-32/Core/Src/gvalg.c:161-167 | after a defined first round, every `id[i]` is exactly the mode of centroid i's votes and is non-negative, so the `id[i] < 0` fallback never fires |
| GvalgEmbedded.Identities | stm-32/Core/Src/gvalg.c:161-167 | `id[i]` is the `uint8_t` result of setmode on row i, so it lies in 0..255. The loop is `CountVotes` |
| GvalgEmbedded.BinIndex | stm-32/Core/Src/gvalg.c:91-93 | for a non-negative angle the bin is floor(angle) / 100 |
| GvalgEmbedded.DemoBins | stm-32/Core/Src/main.c:45-50 | the six demo angles fall in bins 49, 61, 132, 46, 115 and 73 |
| GvalgEmbedded.AddVote | stm-32/Core/Src/gvalg.c:123-147 | one iteration's writes: the same two bytes go to both endpoints' rows at `2k, 2k+1`; when both ends are one centroid the pair is followed by two calloc zeros; none when a row would pass its 512 slots. Its effect on the arrays is `RecordVote` |
| GvalgEmbedded.CastPrefix | stm-32/Core/Src/gvalg.c:118-149 | the first t iterations of the inner loop, reading at `addr+1+2t'`; none past the bytestream. What they append is `CatalogLookup.WalkAppendsStreamBytes`; how many run is `PairsReadIsLoopTest` |
| GvalgEmbedded.CastPair | stm-32/Core/Src/gvalg.c:91-149 | one image pair: bin lookup, count byte, then `(count+3)/2+1` iterations; none on an out-of-range lookup. The loop over the arrays is `CastPairVotes`; an empty bin is `CatalogLookup.EmptyBinStillVotes` |
| GvalgEmbedded.FirstRound | stm-32/Core/Src/gvalg.c:88-150 | the vote rows after the first round, keeping one row per centroid. Its properties are `FirstRoundVotesAreBytes` and `VoteCountIsTwicePairsRead`; the loop over the arrays is `CastVotes` |
| GvalgEmbedded.PairsReadIsLoopTest | stm-32/Core/Src/gvalg.c:96-148 | iteration t (reading at `bin_addr+1+2t`) happens exactly when `1+2t ≤ c+4`, so `(c+3)/2+1` pairs are read |
| GvalgEmbedded.PairsReadEqualsCountOnlyAtFourAndFive | stm-32/Core/Src/gvalg.c:96-118 | the number of pairs read equals the bin's count only when the count is 4 or 5 |
| GvalgEmbedded.FirstRoundVotesAreBytes | stm-32/Core/Src/gvalg.c:124-129 | every vote written in a defined first round is a byte from the bytestream, or a calloc zero |
| GvalgEmbedded.VoteCountIsTwicePairsRead | stm-32/Core/Src/gvalg.c:146-162 | the count passed to setmode, `2*k_n[x]`, is twice the pairs read for all image pairs touching x, and it stays within the 512-slot row |
| GvalgEmbedded.LastRowWithId | stm-32/Core/Src/gvalg.c:188-192 | the index found is the last row among 0..j-1 whose ID matches, or -1 exactly when no row matches |
| GvalgEmbedded.Supports | stm-32/Core/Src/gvalg.c:181-201 | the second round's test for one image pair: non-negative centroids, non-zero identities both found in rows 0..255, and a catalog angle within 1 of the image angle. `ZeroIdHasNoSupport` and `VerifiedIsSupportCount` are stated with it |
| GvalgEmbedded.Bump | stm-32/Core/Src/gvalg.c:202-203 | `v2` with both ends of the pair incremented; `BumpRaisesBothEnds` states its effect |
| GvalgEmbedded.Verified | stm-32/Core/Src/gvalg.c:180-209 | `v2` after the second round. `VerifiedIsSupportCount` and `VerifyStepIsSymmetric` state its meaning; the loop is `Verify` |
| GvalgEmbedded.VerifyStepIsSymmetric | stm-32/Core/Src/gvalg.c:180-204 | one verification step raises both ends of the pair by exactly 1 or leaves both unchanged; no other centroid changes |
| GvalgEmbedded.BumpRaisesBothEnds | stm-32/Core/Src/gvalg.c:202-203 | both increments land, and nothing else changes |
| GvalgEmbedded.VerifiedIsSupportCount | stm-32/Core/Src/gvalg.c:180-209 | each final `v2[x]` is its initial value plus the number of supporting pairs that have x as an endpoint |
| GvalgEmbedded.ZeroIdHasNoSupport | stm-32/Core/Src/gvalg.c:186 | no pair supports a centroid whose identity is 0 |
| GvalgEmbedded.UnidentifiedGainsNothing | stm-32/Core/Src/gvalg.c:181-204 | a centroid with identity 0 ends verification with the `v2` it started with |
| GvalgEmbedded.RecordVote | stm-32/Core/Src/gvalg.c:123-147 | the four writes and two counter increments of one iteration turn the arrays into the next abstract vote rows |
| GvalgEmbedded.CastPairVotes | stm-32/Core/Src/gvalg.c:96-149 | the inner loop is defined exactly when the abstract walk is, and it then leaves the arrays holding the walked rows |
| GvalgEmbedded.CastVotes | stm-32/Core/Src/gvalg.c:88-150 | the first round is defined exactly when `FirstRound` is, and it then leaves `v`/`k_n` holding its rows |
| GvalgEmbedded.CountVotes | stm-32/Core/Src/gvalg.c:161-167 | `id` becomes each row's setmode value |
| GvalgEmbedded.FindRows | stm-32/Core/Src/gvalg.c:188-192 | the scan of rows 0..255 returns the last row holding each identity |
| GvalgEmbedded.Verify | stm-32/Core/Src/gvalg.c:180-209 | `v2` becomes the verification function of its old value |
| GvalgEmbedded.Gvalg | stm-32/Core/Src/gvalg.c:69-218 | vote, resolve, verify: the result is defined iff the first round is; `id` then holds the modes and `v2` the verified scores; otherwise both are untouched |
| GvalgDesktop.CastPairVisitsRange | geometric-voting/gvalg.cpp:87-101 | rows `index_min..index_max` are visited inclusive and must lie in `tab_cat`; each endpoint gains 2 votes per row; an empty range changes nothing |
| GvalgDesktop.AppendPair | geometric-voting/gvalg.cpp:95-97 | one endpoint's writes at `2k+1`, `2k+2` and `k_n++`; none when slot `2k+2` is past the 512-slot row. `AppendEndpoint` is its array form |
| GvalgDesktop.VisitRow | geometric-voting/gvalg.cpp:91-101 | one inner-loop iteration at row j: centroid A's writes, then B's; none outside `tab_cat`. `VisitRangeAppends` states what it appends |
| GvalgDesktop.VisitRange | geometric-voting/gvalg.cpp:91-102 | the inner loop over `t` rows from `lo`. `VisitRangeAppends` and `CastPairVisitsRange` state its meaning |
| GvalgDesktop.CastPair | geometric-voting/gvalg.cpp:87-102 | one image pair: rows `bsearch(angle - loc_err)` to `bsearch(angle + loc_err)` inclusive. `CastPairVisitsRange` states its meaning; the loop is `CastPairVotes` |
| GvalgDesktop.FirstRound | geometric-voting/gvalg.cpp:85-103 | the vote rows after the first round, one per centroid. `FirstRoundVotes` and `FirstRoundRowsFit` state its meaning; the loop is `CastVotes` |
| GvalgDesktop.VisitRangeAppends | geometric-voting/gvalg.cpp:91-101 | the inner loop appends the visited rows' two IDs in ascending j, once per endpoint that is the centroid |
| GvalgDesktop.FirstRoundVotes | geometric-voting/gvalg.cpp:85-101 | each centroid's vote row is exactly its votes in image-pair order, then in ascending j |
| GvalgDesktop.FirstRoundRowsFit | geometric-voting/gvalg.cpp:81-100 | a defined first round leaves every row with an even vote count of at most 510 (the write at `2k+2` needs k ≤ 254) |
| GvalgDesktop.Slots | geometric-voting/gvalg.cpp:80-101 | slot 0 of a vote row is 0, the votes fill slots 1.. and zeros follow them |
| GvalgDesktop.FirstZero | geometric-voting/gvalg.cpp:107-111 | the scan stops at the first zero slot, and no slot before it is zero |
| GvalgDesktop.CountVotes | geometric-voting/gvalg.cpp:106-120 | every `id[i]` is `mode` applied to the row with length 0, because the first-zero scan stops at slot 0 |
| GvalgDesktop.VerifiedDefined | geometric-voting/gvalg.cpp:131-133 | verification stays in bounds exactly when no examined pair's identities fall outside the catalog rows |
| GvalgDesktop.Supports | geometric-voting/gvalg.cpp:124-138 | the second round's test: non-zero centroid indices, non-zero identities inside the catalog, and the catalog angle strictly inside `angle ± loc_err`. `CentroidZeroHasNoSupport` and `UnidentifiedHasNoSupport` are stated with it |
| GvalgDesktop.VerifyPair | geometric-voting/gvalg.cpp:124-141 | one second-round step: none on an out-of-bounds `cat` read, both ends bumped on support, otherwise unchanged. `VerifyPairIsSymmetric` states its effect |
| GvalgDesktop.Verified | geometric-voting/gvalg.cpp:123-144 | `v2` after the second round, or none on an out-of-bounds read. `VerifiedDefined` and `VerifiedIsSupportCount` state its meaning; the loop is `Verify` |
| GvalgDesktop.VerifyPairIsSymmetric | geometric-voting/gvalg.cpp:138-141 | one step adds 1 at each endpoint of a supporting pair and changes nothing else |
| GvalgDesktop.VerifiedIsSupportCount | geometric-voting/gvalg.cpp:123-144 | each final `v2[x]` is its initial value plus the supporting pairs touching x |
| GvalgDesktop.CentroidZeroHasNoSupport | geometric-voting/gvalg.cpp:124 | the `!= 0` test on centroid indices means centroid 0 is never verified |
| GvalgDesktop.UnidentifiedHasNoSupport | geometric-voting/gvalg.cpp:129 | a centroid with identity 0 gains no verification |
| GvalgDesktop.AppendEndpoint | geometric-voting/gvalg.cpp:95-97 | one endpoint's two writes and counter increment turn the arrays into the next abstract rows |
| GvalgDesktop.CastPairVotes | geometric-voting/gvalg.cpp:91-102 | the inner loop is defined exactly when the abstract range walk is, and it then matches it |
| GvalgDesktop.CastVotes | geometric-voting/gvalg.cpp:85-103 | the first round over the arrays is defined exactly when `FirstRound` is, and it then matches it |
| GvalgDesktop.Verify | geometric-voting/gvalg.cpp:123-144 | `v2` becomes the verification function of its old value, or the method reports the out-of-bounds catalog read |
| GvalgDesktop.Gvalg | geometric-voting/gvalg.cpp:71-152 | composes the rounds: an undefined first round leaves `id`/`v2` untouched; otherwise `id[i] = mode(row, 0)` and `v2` follows the verification |
| CatalogTabulator.Insert | catalog/tabulate-catalog.py:99 | one insertion step of the stable sort: the star goes after every star whose HIP ID is not larger, and the result is the input plus that star as a multiset |
| CatalogTabulator.SortByHip | catalog/tabulate-catalog.py:99 | `unit_vectors.sort(key=hip)` as a stable insertion sort: same length, same multiset of stars. `SortByHipSorts` proves it ordered |
| CatalogTabulator.SortByHipSorts | catalog/tabulate-catalog.py:99 | the sort's result is ordered by HIP ID and is a permutation of the stars |
| CatalogTabulator.HipToIndex | catalog/tabulate-catalog.py:100 | each key maps to a position holding that HIP ID; when an ID repeats, the later position wins |
| CatalogTabulator.HipToIndexKeys | catalog/tabulate-catalog.py:100 | the dictionary's keys are exactly the stars' HIP IDs |
| CatalogTabulator.HipToIndexOfDistinct | catalog/tabulate-catalog.py:99-100 | without repeated HIP IDs, each star maps to its own sorted position |
| CatalogTabulator.HipToIndexIsInjective | catalog/tabulate-catalog.py:100 | distinct HIP IDs get distinct indices |
| CatalogTabulator.HipCount | catalog/tabulate-catalog.py:100-103 | `len(hip_to_index)` is at most the number of stars, and equal to it iff no HIP ID repeats |
| CatalogTabulator.IndicesFitInAByte | catalog/tabulate-catalog.py:102-103 | on a run that completes (at most 256 HIP IDs and no repeated HIP ID), every index and every binned pair index is below 256, so `& 0xFF` changes nothing |
| CatalogTabulator.Kept | catalog/tabulate-catalog.py:121-123 | the step 2 cut: a pair is kept when its angle is at most 84°. `PairEnumeration` and `TotalPairsPossible` are stated with it |
| CatalogTabulator.PairPositions | catalog/tabulate-catalog.py:116-124 | the positions (i, j) of the kept pairs from the first rows, every position below the number of stars. `PairEnumeration` states its meaning; the loops are `EnumeratePairs` |
| CatalogTabulator.PairEnumeration | catalog/tabulate-catalog.py:116-124 | `angle_data` holds each pair i<j with angle ≤ 84 exactly once, lower position first, in row-major order |
| CatalogTabulator.TotalPairsPossible | catalog/tabulate-catalog.py:135 | at most n(n-1)/2 pairs are kept, and all of them when every angle is within 84° |
| CatalogTabulator.Binned | catalog/tabulate-catalog.py:145-151 | the 840 bins of index pairs. `BinnedIsFilter` and `BinnedTotal` state its meaning; the loop is `BinPairs` |
| CatalogTabulator.Stream | catalog/tabulate-catalog.py:169-183 | the bytestream of the first k bins. `StreamLayout`, `StreamLength` and `DecodeBinRoundTrip` state its meaning |
| CatalogTabulator.Addresses | catalog/tabulate-catalog.py:170-183 | `bin_angle_to_address_lut` for the first k bins, one entry per bin. `AddressStep` and `AddressLutShape` state its meaning |
| CatalogTabulator.EnumerateRow | catalog/tabulate-catalog.py:119-124 | the inner loop appends row i's kept pairs in ascending j |
| CatalogTabulator.EnumeratePairs | catalog/tabulate-catalog.py:116-124 | the nested loops produce the row-major kept-pair entries |
| CatalogTabulator.BinnedIsFilter | catalog/tabulate-catalog.py:145-151 | bin b holds exactly the index pairs of the entries whose bin is b, in `angle_data` order |
| CatalogTabulator.BinnedTotal | catalog/tabulate-catalog.py:145-151 | the bins together hold one pair per entry whose bin is in 0..839, and no more than `len(angle_data)` |
| CatalogTabulator.BinPairs | catalog/tabulate-catalog.py:145-151 | the binning loop computes `Binned` |
| CatalogTabulator.AddressStep | catalog/tabulate-catalog.py:177-183 | `lut[b+1] = lut[b] + 1 + 2·len(bin b)` |
| CatalogTabulator.AddressLutShape | catalog/tabulate-catalog.py:170-183 | the LUT has 840 entries, starts at 0, steps by `1 + 2·len`, equals `b + 2·(pairs before b)` and is strictly increasing |
| CatalogTabulator.StreamLayout | catalog/tabulate-catalog.py:177-183 | at `lut[b]` the stream holds `len(bin b) & 0xFF`, followed by the bin's index bytes in order |
| CatalogTabulator.StreamLength | catalog/tabulate-catalog.py:334-339 | the bytestream is `840 + 2·total_pairs` bytes long |
| CatalogTabulator.DecodeBinRoundTrip | catalog/tabulate-catalog.py:173-183 | decoding the stream at `lut[b]` gives back bin b when it holds fewer than 256 pairs |
| CatalogTabulator.SerializeBins | catalog/tabulate-catalog.py:169-183 | the loop with its running `address_counter` produces the stream and the address table |
| CatalogTabulator.BinnedCsvHeaders | catalog/tabulate-catalog.py:154-159 | the address written for each bin in the binned CSV equals `lut[b]` |
| CatalogTabulator.IndexToHipTable | catalog/tabulate-catalog.py:193-195 | the first index-to-HIP table exists iff no HIP ID repeats (otherwise IndexError); it lists the sorted HIP IDs and inverts `hip_to_index` |
| CatalogTabulator.HipsInOrder | catalog/tabulate-catalog.py:207-219 | the second `index_to_hip_lut` list, one HIP ID per sorted star. `HipsInOrderInverts` states its meaning |
| CatalogTabulator.HipsInOrderInverts | catalog/tabulate-catalog.py:207-219 | the Python list `index_to_hip_lut` gives `table[hip_to_index[h]] == h`, and without repeats `hip_to_index` inverts it back (the `uint16_t` C table is `ShippedHipTableTruncates`) |
| CatalogTabulator.CTable | catalog/tabulate-catalog.py:249-267 | a C array of an unsigned type initialised from a Python list: every entry is below the type's limit, and equals the list's value exactly when that value fits |
| CatalogTabulator.ShippedHipTableTruncates | catalog/tabulate-catalog.py:249-251 | as written, `index_to_hip_ID_lut` is `uint16_t`: a star with HIP ID 91262 is stored as 0x647E, which is not its ID |
| CatalogTabulator.WideHipTableInverts | catalog/tabulate-catalog.py:249-251 | a `uint32_t` table holds every HIP ID below 2^32 unchanged, and so inverts `hip_to_index` as the Python list does |
| CatalogTabulator.FirmwareAddresses | catalog/tabulate-catalog.py:260-262 | the `uint16_t` `bin_angle_to_address_lut` the firmware reads: an address keeps its value exactly when it is below 65536 |
| CatalogTabulator.CatalogRecords | catalog/tabulate-catalog.py:209-217 | `catalog_bytes`, four bytes per star. `CatalogRecordsAt` states its layout; the loop is `CatalogBytes` |
| CatalogTabulator.CatalogRecordsAt | catalog/tabulate-catalog.py:209-217 | record i takes 4 bytes: `i & 0xFF`, then the x, y, z bytes |
| CatalogTabulator.CatalogBytes | catalog/tabulate-catalog.py:206-219 | the loop builds `catalog_bytes` and the shipped index-to-HIP table |
| CatalogTabulator.Tabulate | catalog/tabulate-catalog.py:99-219 | more than 256 distinct HIP IDs gives ValueError; a repeated HIP ID gives IndexError; otherwise the result is all the tables |
| CatalogLookup.BinCountAtAddress | stm-32/Core/Src/gvalg.c:94-98 | when bin b's address is below 65536, the `uint16_t` table holds it unchanged and the byte the firmware reads there is the tabulator's count of bin b (`& 0xFF`) |
| CatalogLookup.WalkAppendsStreamBytes | stm-32/Core/Src/gvalg.c:118-148 | t iterations append to each endpoint exactly the 2t stream bytes after the bin address |
| CatalogLookup.EmptyBinStillVotes | stm-32/Core/Src/gvalg.c:96-118 | as written, an empty bin whose address fits the `uint16_t` table still casts 2 pairs: the 4 bytes after its address, the first being the next bin's count |
| CatalogLookup.EmptyCountWalk | stm-32/Core/Src/gvalg.c:118 | a zero count byte still makes the loop read the 4 following bytes |
| CatalogLookup.WalkOverPairs | stm-32/Core/Src/gvalg.c:118-148 | walking t pairs over a serialised bin appends that bin's first t index-byte pairs to both rows |
| CatalogLookup.CountedWalkVotesBin | stm-32/Core/Src/gvalg.c:96-129 | with the walk bounded by the count and bin b's address below 65536, each endpoint receives exactly bin b's index bytes in stored order |
| SpiProtocol.Le32RoundTrip | raspberry-pi/spi-protocol.py:34 | decoding `struct.pack('<I', v)` gives back v |
| SpiProtocol.DecodeLe32Inverse | raspberry-pi/spi-protocol.py:34 | every 4 bytes are the encoding of exactly one uint32 |
| SpiProtocol.Le32 | raspberry-pi/spi-protocol.py:34 | `struct.pack('<I', v)`: four bytes. `Le32RoundTrip` and `DecodeLe32Inverse` state its meaning |
| SpiProtocol.Payload | raspberry-pi/spi-protocol.py:31-34 | the centroid bytes, eight per centroid. `PayloadAt` and `PayloadRoundTrip` state its meaning |
| SpiProtocol.Packet | raspberry-pi/spi-protocol.py:25-36 | the buffer as built: 170 zero bytes, the payload, 85 zero bytes, `255 + 8n` bytes in all. `PacketLayout` states its layout |
| SpiProtocol.PayloadAt | raspberry-pi/spi-protocol.py:31-34 | centroid k occupies bytes 8k..8k+7, `fx` then `fy`, in input order |
| SpiProtocol.PayloadRoundTrip | raspberry-pi/spi-protocol.py:31-34 | decoding the payload recovers the centroids in order |
| SpiProtocol.PacketLayout | raspberry-pi/spi-protocol.py:25-37 | the buffer as built is 255 + 8n bytes with zeros at both ends; its payload decodes back |
| SpiProtocol.FramedPacketRoundTrip | raspberry-pi/spi-protocol.py:6-7 | the packet the framing describes is 2 + 8n bytes, is delimited by 0xAA and 0x55, and decodes back |
| SpiProtocol.BuildBuffer | raspberry-pi/spi-protocol.py:23-37 | succeeds iff every scaled coordinate is a uint32, giving the packet; otherwise it reports the first failing centroid |
| SpiProtocol.ChunksFlatten | raspberry-pi/spi-protocol.py:41-44 | the chunks concatenate back to the buffer |
| SpiProtocol.Chunks | raspberry-pi/spi-protocol.py:41-43 | the 32-byte slices the send loop takes. `ChunksFlatten`, `ChunksCount` and `ChunksAt` state its meaning; the loop is `ChunkBuffer` |
| SpiProtocol.ChunksCount | raspberry-pi/spi-protocol.py:41-42 | there are ceil(len/32) chunks |
| SpiProtocol.ChunksAt | raspberry-pi/spi-protocol.py:42-43 | chunk k is the slice at offset 32k; it is non-empty and at most 32 bytes, and only the last one may be shorter |
| SpiProtocol.ChunkBuffer | raspberry-pi/spi-protocol.py:41-45 | the offset loop produces `Chunks(buffer)` |
| SpiProtocol.SendCentroids | raspberry-pi/spi-protocol.py:23-46 | it sends the packet's chunks iff every coordinate fits; otherwise the pack error is raised before any chunk is sent |
| ImageCapture.DigitRun | raspberry-pi/imagecapture.py:30 | the run of `\d` at the front: all digits, followed by a non-digit or the end |
| ImageCapture.ParseNumber | raspberry-pi/imagecapture.py:30-31 | `pattern.match(f)` then `int(m.group(1))`; a match starts with `base_` and is at least 18 characters longer than the base name and extension together. `NameWithDigitsMatches`, `TrailingCharactersIgnored` and `LeadingZerosIgnored` state its meaning |
| ImageCapture.Numbers | raspberry-pi/imagecapture.py:31 | `numbers`, one entry per matching name in listing order, never more than the names. `NumbersMember` and `IgnoresNonMatching` state its meaning |
| ImageCapture.NextNumber | raspberry-pi/imagecapture.py:32 | `max(numbers, default=0) + 1`, at least 1. `NextNumberIsMaxPlusOne` states its meaning |
| ImageCapture.MaxIsGreatest | raspberry-pi/imagecapture.py:32 | `max(.., default=0)` bounds every number and is one of them when the list is non-empty |
| ImageCapture.NumbersMember | raspberry-pi/imagecapture.py:31 | `numbers` holds n iff some listed name matches and captures n |
| ImageCapture.NextNumberIsMaxPlusOne | raspberry-pi/imagecapture.py:31-32 | the next number exceeds every captured number, and is one more than one of them, or 1 when nothing matches |
| ImageCapture.IgnoresNonMatching | raspberry-pi/imagecapture.py:31 | a name that does not match does not change the next number |
| ImageCapture.TrailingCharactersIgnored | raspberry-pi/imagecapture.py:30-31 | `re.match` anchors only at the start: extra characters after a matching name do not change the match |
| ImageCapture.LeadingZerosIgnored | raspberry-pi/imagecapture.py:31 | `int` ignores leading zeros |
| ImageCapture.DecimalValue | raspberry-pi/imagecapture.py:34 | the decimal digits of n read back as n |
| ImageCapture.DecimalLength | raspberry-pi/imagecapture.py:34 | a number has at most 3 digits exactly when it is below 1000 |
| ImageCapture.Pad3 | raspberry-pi/imagecapture.py:34 | `f"{n:03d}"`: at least three digits. `Pad3Digits` states its meaning |
| ImageCapture.Pad3Digits | raspberry-pi/imagecapture.py:34 | `:03d` gives at least 3 digits that read back as n; 1000 and above are written in full, never truncated |
| ImageCapture.NameWithDigitsMatches | raspberry-pi/imagecapture.py:30 | `base_D_timestamp.ext` matches for any non-empty digit string D and captures int(D); base and extension match literally |
| ImageCapture.NextName | raspberry-pi/imagecapture.py:33-34 | the name returned: it starts with `base_` and ends with the extension. `NextNameRoundTrip` states its meaning |
| ImageCapture.NextNameRoundTrip | raspberry-pi/imagecapture.py:30-34 | with a well-formed timestamp the new name matches the pattern, and its captured number is the new N, which exceeds every existing number |

## Left out

- Register-level drivers and board bring-up are not part of this model: the I2C EEPROM, UART, SysTick delay, LED and `main` programs. The demo image pairs of the firmware's main program appear only in `DemoBins`.
- The debug `snprintf`/`LPUART_Print` output and the `delay_us(200000)` inside the firmware's vote loop are left out, and so are the calloc/free bookkeeping and every printed summary. None of them changes the computed values.
- Floating point is left out: `acos` of the dot product is the function parameter `catAngle` or `pairAngle`; `radec_to_unit_vector`, `np.clip`, `np.degrees` and the unit vectors are given as reals.
- Python's `int(angle // 0.1)` is the parameter `binOf`, because IEEE floor division differs from exact reals at bin boundaries.
- `float_to_byte_unit_vector` is the parameter `toByte`.
- `int(round(x * scale))` is left out: the SPI model takes the already scaled integer coordinates.
- `bsearch` and `mode` of the desktop variant are not defined in the repository. They are uninterpreted parameters, so nothing is proved about the identity `mode` returns.
- Catalog CSV parsing (the skipped malformed rows of step 1) is left out. The tabulator starts from the parsed stars.
- The CSV, `.c`/`.h` and memory-map output of the tabulator is left out as text, including `format_block` and the dummy `eeprom1_data`. What the C compiler makes of the two `uint16_t` tables is modelled by `CTable`: `FirmwareAddresses` for the bin addresses and `ShippedHipTableTruncates` for the HIP IDs.
- CatalogLookup.BinCountAtAddress, CatalogLookup.EmptyBinStillVotes and CatalogLookup.CountedWalkVotesBin require bin b's address to be below 65536, because the firmware reads it through the `uint16_t` `bin_angle_to_address_lut`. A bytestream longer than 65535 bytes is possible (256 stars all within 84° of each other give 840 + 2·32640 = 66120 bytes); later addresses then wrap, and what the firmware reads there is not described.
- The SPI device's `xfer2` transfers, the 1 ms sleeps and the `print` lines are left out. The model returns the chunks in the order they are sent.
- `os.listdir` and `datetime.now` are parameters of the name generator. `CameraManager` (a camera wrapper) is left out.
- `\d` is modelled as ASCII digits only. Python also matches other Unicode decimal digits.
- Doubles that carry integers (`tab_image` indices, catalog IDs, `tab_cat` IDs) are modelled as `int`. The `(int)` casts of the C code are identities on them.
- GvalgEmbedded.CastVotes: where the C code would write or read out of bounds it returns false, and the arrays' contents are not described further, because the C behaviour there is undefined.
- GvalgDesktop.Verify: an out-of-bounds catalog read returns false, with `v2` unspecified, for the same reason.
- Both variants require the image pairs' centroid indices to lie in `0..n_stars_img-1`; the callers build them that way. The firmware variant also requires at least 256 catalog rows, which its scan reads unconditionally.

## Findings

| source | as written | input that shows it | evidently intended | confidence | as-written member | corrected member |
|---|---|---|---|---|---|---|
| stm-32/Core/Src/gvalg.c:118 | the loop runs while `j <= bin_addr + count + 4` with j advancing by 2, so it reads `(count+3)/2 + 1` pairs | an image pair whose bin holds no pairs: it still votes the 4 bytes after the bin address, the first being the next bin's count byte | read exactly `count` pairs from the bin | high, not executed | CatalogLookup.EmptyBinStillVotes | CatalogLookup.CountedWalkVotesBin |
| catalog/tabulate-catalog.py:249-251 | `index_to_hip_ID_lut` is written as a `const uint16_t` array, so a HIP ID of 65536 or more is stored modulo 65536 | a catalog star with HIP ID 91262 (0x1647E): its entry is 0x647E | a table wide enough for every HIP ID (`uint32_t`), whose entries equal the IDs | high, not executed | CatalogTabulator.ShippedHipTableTruncates | CatalogTabulator.WideHipTableInverts |
| raspberry-pi/spi-protocol.py:28 | `bytes(START_BYTE)` and `bytes(STOP_BYTE)` with int arguments give 170 and 85 zero bytes | any centroid list of length n: the buffer is 255 + 8n bytes and starts and ends with 0x00 | one 0xAA byte before the payload and one 0x55 after it (2 + 8n bytes) | high, not executed | SpiProtocol.PacketLayout | SpiProtocol.FramedPacketRoundTrip |

The firmware model `GvalgEmbedded.Gvalg` and the sender `SpiProtocol.SendCentroids`
keep the behaviour as written, and so does `CatalogTabulator.Tabulate`, whose
`indexToHip` field is the Python list before the C conversion. The corrected walk (`CatalogLookup.CountedCastPair`)
and the corrected framing (`SpiProtocol.FramedPacket`) are defined beside them, and
the properties above are proved about them.

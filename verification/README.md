# Verified model of the gateway's core

The repository collects the programs of a small network gateway. This project models the parts that
compute something hard and proves what they promise.

- **Curve25519** (`Bits`, `Field`, `Fermat`, `Rfc7748`, `Radix51`, `Inversion`, `Hacl64*`, `Fiat32*`,
  `Ladders`, `Agreement`). Both implementations of X25519 as in-place code on limb arrays: five 51-bit
  limbs with 128-bit accumulators, and ten limbs of 26 and 25 bits with 64-bit accumulators. A word is
  an integer in range, so every assignment carries the proof that nothing wraps. The 32-bit code
  computes the function of section 5 of RFC 7748; the 64-bit code differs in swap discipline,
  constant and number of bits, and computes the same function.
- **Netlink** (`Tlv`, `Netlink`, `WgDevice`, `SetDevice`, `GetDevice`, `PeerList`, `Reassembly`,
  `Kernel`, `KernelInput`). A device with any number of peers and allowed IPs is cut into messages that
  fit the socket buffer, byte by byte; a kernel that reads those bytes by the numbers of its header ends
  where the whole device would leave it; walking, parsing and coalescing them gives the device back.
- **Configuration** (`Text`, `Encoding`, `Hex`, `KeyText`, `Netmask`, `Config`, `ConfigLaws`,
  `ShowConf`, `SyncConf`, `StringList`). The key codecs, the line-driven reader with its tail pointers
  against the printer, what its values mean letter by letter, and `syncconf`, which must leave what a
  full replacement would leave.
- **External DNS cache** (`CacheDb`). Stored replies age. A message crosses the wire without its own
  TTL, so the parser's rules for making TTLs are part of the model. Over any run a question is
  answered exactly if the latest store under its hash still serves, with what that store has become.
- **Event log** (`Events`). The log after any run is the replay of its operations: ten events at most,
  each the account of exactly the reports since the alert that opened it.

Words and buffers follow the C code: `array` for limb and byte buffers, classes for messages,
contexts, the cache and the log. Linked lists are sequences. Where the code hangs a node behind a
tail pointer, `Config.Link` says what that does to the list if the pointer is not the tail.

Inputs of the model that stand for code outside it, each with what is asked of it:

- the conversions of addresses, services and host names (`Config.Codec`, `ShowConf.Faithful`,
  `ShowConf.Named`, `ShowConf.Canonically`);
- the DNS wire format (`CacheDb.Wire`, `CacheDb.Faithful`) and the hash of a question;
- the library sort (`SyncConf.Sorts`) and the masking of an allowed IP by its prefix;
- the kernel's acknowledgements, the clock, the internal cache's answers, lost backend entries.

Multi-byte netlink fields are little-endian. `char` is signed or unsigned by a parameter.

## Model

| member | source | states |
|---|---|---|
| `Hacl64.Curve25519Generic` | Wireguard/src/curve25519-hacl64.h:755-784 | Whole 64-bit X25519 on byte arrays, through expansion, clamping, 256 ladder steps, inversion and contraction: the output is the 256-bit ladder function of the two input strings, and no 64- or 128-bit operation on the way wraps or truncates |
| `Fiat32.Curve25519Generic` | Wireguard/src/curve25519-fiat32.h:752-860 | Whole 32-bit X25519: for every secret and every point the output is exactly the X25519 of section 5 of RFC 7748 |
| `Agreement.GenericIsX25519` | Wireguard/src/curve25519-hacl64.h:586-597 | The two implementations agree: for every secret and point the 256-bit ladder with immediate swaps gives the RFC 7748 result, the only hypothesis being that 2^255 - 19 is prime |
| `Agreement.LongerLadder` | Wireguard/src/curve25519-hacl64.h:574-597 | The extra leading step leaves the points of the 255-bit ladder, each multiplied by a power of 4u, on every scalar whose top bit is zero |
| `Agreement.LeadingZero` | Wireguard/src/curve25519-hacl64.h:475-551 | A step on a zero bit from the starting state changes nothing but the scale of the second point, by 4u |
| `Agreement.TopBits` | Wireguard/src/curve25519.h:18-22 | What clamping gives the comparison: bit 255 of every clamped scalar is 0 and bit 254 is 1 |
| `Agreement.ZeroPoint` | Wireguard/src/curve25519-hacl64.h:586-597 | For u = 0, where the scale is not invertible, the ladder is at X = 0 after the first one bit and stays there |
| `Agreement.ScaleForgotten` | Wireguard/src/curve25519-hacl64.h:743-753 | Dividing X by Z through the (p-2)nd power forgets any power of a nonzero scale |
| `Ladders.DeferredIsImmediate` | Wireguard/src/curve25519-fiat32.h:796-845 | Carrying the swap to the next bit and undoing it at once lead to the same four values, for every bit list |
| `Ladders.StepOfScale` | Wireguard/src/curve25519-hacl64.h:475-539 | A ladder step of a rescaled state is the rescaled step: the scale stays projective |
| `Ladders.ImmediateOfScale` | Wireguard/src/curve25519-hacl64.h:541-584 | Scales that are powers of one number stay so through every later step |
| `Fermat.Little` | Wireguard/src/curve25519-hacl64.h:294-336 | Fermat for the field, from primality alone: the exponent p-2 of both inversion chains inverts every nonzero element |
| `Rfc7748.ClampedScalar` | Wireguard/src/curve25519.h:18-22 | Every clamped scalar is 2^254 plus a multiple of 8 below 2^254, and that multiple is bits 3 to 253 of the secret: clamping loses the three low and the two top bits and no other |
| `Hacl64.ClampSecret` | Wireguard/src/curve25519.h:18-22 | Clamping in place gives the clamped string of RFC 7748 |
| `Hacl64.ScalarOfPoint` | Wireguard/src/curve25519-hacl64.h:743-753 | The encoded X z^(p-2), canonical |
| `Hacl64Field.MulCorrect` | Wireguard/src/curve25519-hacl64.h:183-212 | On limbs below 2^54 + 2^51 + 2^14 multiplication yields limbs below 2^51 (the second below 2^51 + 2^13) that stand for the product mod p |
| `Hacl64Field.ReduceBound` | Wireguard/src/curve25519-hacl64.h:183-212 | The three narrowing places of a multiplication lose nothing: the cast of the top carry, the copy from 128 to 64 bits, the final carry |
| `Hacl64Field.MulShiftReduce` | Wireguard/src/curve25519-hacl64.h:153-181 | Five rows accumulated while the multiplicand is shifted and multiplied by 19 in place equal the schoolbook columns, with no 64-bit or 128-bit overflow |
| `Hacl64Field.Fmul` | Wireguard/src/curve25519-hacl64.h:183-212 | Product mod p within the reduced bounds, for any aliasing of output and inputs |
| `Hacl64Field.Fsquare` | Wireguard/src/curve25519-hacl64.h:214-268 | The merged-column square leaves limb for limb what multiplying by itself leaves |
| `Hacl64Field.FsquareTimesInplace` | Wireguard/src/curve25519-hacl64.h:270-292 | n squarings compute the 2^n-th power; zero counts as one, since the first squaring comes before the loop |
| `Hacl64Field.Crecip` | Wireguard/src/curve25519-hacl64.h:294-336 | Through all buffer reuse the chain computes z^(p-2) mod p |
| `Hacl64Ladder.Fsum` | Wireguard/src/curve25519-hacl64.h:338-345 | Sums stay below 2^52 + 2^26 and stand for the field sum |
| `Hacl64Ladder.Fdifference` | Wireguard/src/curve25519-hacl64.h:347-391 | Differences stay below 2^54 + 2^51 + 2^13, never borrow, and stand for the field difference |
| `Hacl64Ladder.Fscalar` | Wireguard/src/curve25519-hacl64.h:393-428 | The limbs stand for the product with the constant and stay within the bound of a summand |
| `Hacl64Ladder.SwapConditional` | Wireguard/src/curve25519-hacl64.h:440-467 | The masked exchange swaps both coordinates exactly if the bit is 1 |
| `Hacl64Ladder.AddAndDouble` | Wireguard/src/curve25519-hacl64.h:475-539 | One double-and-add from reduced points leaves reduced points whose four values are the RFC 7748 step |
| `Hacl64Ladder.LadderCmult` | Wireguard/src/curve25519-hacl64.h:541-597 | All 256 steps over the bytes of the scalar, with the pair of buffers alternating: the bounds hold before every step and the result is the specified ladder |
| `Hacl64Format.EqMaskDecides` | Wireguard/src/curve25519-hacl64.h:15-23 | The mask is all ones exactly for equal words |
| `Hacl64Format.GteMaskDecides` | Wireguard/src/curve25519-hacl64.h:25-37 | The mask is all ones exactly if a >= b |
| `Hacl64Format.Fexpand` | Wireguard/src/curve25519-hacl64.h:599-621 | Five overlapping loads read the little-endian number with bit 255 cleared, into reduced limbs |
| `Hacl64Format.TrimCanonical` | Wireguard/src/curve25519-hacl64.h:689-712 | One masked subtraction takes any five 51-bit limbs to the representative below p |
| `Hacl64Format.Fcontract` | Wireguard/src/curve25519-hacl64.h:623-741 | From reduced limbs, two carry rounds and the trim write the bytes of the unique representative below p |
| `Hacl64Format.ContractExpanded` | Wireguard/src/curve25519-hacl64.h:599-741 | Contracting an expanded string gives it back, top bit cleared and reduced mod p |
| `Fiat32Field.ProductsValue` | Wireguard/src/curve25519-fiat32.h:308-422 | The ten columns with their factors 2 and 19 stand for the product mod p |
| `Fiat32Field.SquareIsMul` | Wireguard/src/curve25519-fiat32.h:440-544 | The merged columns of the square are the columns of the product with itself |
| `Fiat32Field.MulFits` | Wireguard/src/curve25519-fiat32.h:308-422 | From loose limbs no 64-bit column sum overflows, before or after multiplying by 19, and no doubled or quadrupled limb of either operand overflows 32 bits |
| `Fiat32Field.CarryTight` | Wireguard/src/curve25519-fiat32.h:376-421 | The carry chain takes every column in range to tight limbs |
| `Fiat32Field.FeMul` | Wireguard/src/curve25519-fiat32.h:308-422 | Loose operands to a tight product mod p without 32- or 64-bit wrap |
| `Fiat32Field.FeSqr` | Wireguard/src/curve25519-fiat32.h:440-544 | Loose operand to a tight square mod p |
| `Fiat32Field.FeMul121666` | Wireguard/src/curve25519-fiat32.h:631-745 | Product with 121666, tight |
| `Fiat32Field.FeAdd` | Wireguard/src/curve25519-fiat32.h:222-258 | Tight to loose, no overflow, the field sum |
| `Fiat32Field.FeSub` | Wireguard/src/curve25519-fiat32.h:265-301 | Tight to loose, no underflow, the field difference |
| `Fiat32Field.FeInvert` | Wireguard/src/curve25519-fiat32.h:556-616 | The chain of squarings and products computes z^(p-2) mod p |
| `Fiat32Format.FeFromBytes` | Wireguard/src/curve25519-fiat32.h:26-52 | The ten fields of a byte string, top bit dropped, tight, with the string's value mod p |
| `Fiat32Format.FreezeCanonical` | Wireguard/src/curve25519-fiat32.h:104-158 | Subtracting p with borrows and adding it back under the mask gives the representative below p from tight limbs |
| `Fiat32Format.Selected` | Wireguard/src/curve25519-fiat32.h:98-102 | The masked selection picks nz exactly for a nonzero t |
| `Fiat32Format.FeToBytes` | Wireguard/src/curve25519-fiat32.h:160-197 | The bytes of the unique representative below p |
| `Fiat32Format.BytesOfBytes` | Wireguard/src/curve25519-fiat32.h:26-197 | Writing what was read gives the string back, top bit cleared and reduced mod p |
| `Fiat32.FeCSwap` | Wireguard/src/curve25519-fiat32.h:618-629 | Exchanges two elements exactly if the bit is 1 |
| `Fiat32.EitherConstant` | Wireguard/src/curve25519-fiat32.h:833-839 | Multiplying bb + 121666 e or aa + 121665 e is the same: the two constants compute one step |
| `Fiat32.LadderStep` | Wireguard/src/curve25519-fiat32.h:822-839 | One step from tight elements leaves tight elements whose values are the RFC 7748 step |
| `Fiat32.Ladder` | Wireguard/src/curve25519-fiat32.h:796-845 | All 255 steps with the carried swap equal the RFC 7748 loop |
| `Tlv.ForEach` | Wireguard/src/netlink.h:44-57 | The moving-pointer walk visits exactly the attributes the recursive reading finds, and stays inside the buffer even when an aligned step passes its end |
| `Tlv.WalkEncoded` | Wireguard/src/netlink.h:159-169 | Walking any list of attributes whose types and lengths fit reads back each of them in order |
| `Tlv.RestEncoded` | Wireguard/src/netlink.h:159-169 | The walk consumes the bytes of the attributes exactly |
| `Tlv.DecodeEncoded` | Wireguard/src/netlink.h:254-276 | Any attribute tree, to any depth, is read back as exactly that tree |
| `Tlv.EncodedAligned` | Wireguard/src/netlink.h:305-319 | A list of attributes always takes a multiple of four bytes |
| `Netlink.Message.Put` | Wireguard/src/netlink.h:305-319 | Appends exactly the bytes of one attribute, padding included, and keeps the length aligned |
| `Netlink.Message.PutCheck` | Wireguard/src/netlink.h:345-352 | Refuses exactly when the attribute would pass the end of the buffer, and then changes nothing |
| `Netlink.Message.NestStart` | Wireguard/src/netlink.h:336-343 | Opens a nest whose header holds its type and no length yet |
| `Netlink.Message.NestStartCheck` | Wireguard/src/netlink.h:372-378 | Refuses exactly when there is no room for a header |
| `Netlink.Message.NestEnd` | Wireguard/src/netlink.h:380-383 | Writing the length turns the open nest into one complete attribute holding what was put in it |
| `Netlink.Message.NestCancel` | Wireguard/src/netlink.h:385-388 | Restores the message to what it was when the nest began |
| `Netlink.Build` | Wireguard/src/netlink.h:305-388 | Appending any attribute tree with put, nest start and nest end writes exactly its encoding |
| `Netlink.BuildMessage` | Wireguard/src/netlink.h:254-388 | What was built into a buffer decodes to the tree it was built from, with nothing left over |
| `SetDevice.KernelSetDevice` | Wireguard/src/ipc-linux.h:142-274 | For every device and every buffer from 4096 to 8192 bytes the loop ends; every message fits; settings appear in the first message only; if all are accepted the fragments cover every peer once and in order, and if one is refused those sent are a correct beginning |
| `SetDevice.PutPeer` | Wireguard/src/ipc-linux.h:177-249 | Appends a peer whole, or its head and as many allowed IPs as fit, or nothing; a continuation always carries at least one allowed IP |
| `SetDevice.PutIp` | Wireguard/src/ipc-linux.h:216-236 | Appends one allowed IP or leaves the message as it was |
| `SetDevice.CoversProgress` | Wireguard/src/ipc-linux.h:177-274 | Every message makes progress in the order (peers left, head unsent, allowed IPs left) |
| `SetDevice.CoversConcat` | Wireguard/src/ipc-linux.h:177-274 | Splits compose across messages |
| `KernelInput.AttributesAreWalk` | Wireguard/src/netlink.h:44-57 | The walker finds the attributes that the layout of the interface defines, in every buffer, well-formed or not |
| `KernelInput.HeadTells` | Wireguard/src/uapi/linux/linux/wireguard.h:164-183 | What is sent of a peer, read by the numbers of the interface header: key 1, preshared key 2, flags 3 with bit 0 to remove and bit 1 to replace, endpoint 4, keepalive 5; all but key and removal in its first appearance only |
| `KernelInput.PreambleTells` | Wireguard/src/uapi/linux/linux/wireguard.h:146-160 | What is sent of the device, by those numbers: name 2, private key 3, flags 5, port 6, mark 7; all but the name in the first message only |
| `KernelInput.FragArrives` | Wireguard/src/ipc-linux.h:176-245 | A peer nest has the effect of that appearance of the peer: removed, or its allowed IPs replaced or added to |
| `KernelInput.MessageArrives` | Wireguard/src/ipc-linux.h:142-262 | The bytes of one message have the effect of the fragments in it |
| `KernelInput.SentApplies` | Wireguard/src/ipc-linux.h:142-262 | However a device is cut into messages, the kernel that reads their bytes ends where the device given whole would leave it, from every state |
| `KernelInput.SendDevice` | Wireguard/src/ipc-linux.h:142-262 | Sending a device does to the kernel what the device says |
| `KernelInput.RemovalTells` | Wireguard/src/setconf.c:79-88 | What is sent for a peer to be removed is its key and the flag to remove it, and nothing else |
| `Kernel.FragmentsApply` | Wireguard/src/uapi/linux/linux/wireguard.h:117-127 | Applying the fragments of the peers one after another has the effect of the peers given whole, the replace and remove flags of each included, from every kernel state and every position of the split |
| `Kernel.FlaggedFirst` | Wireguard/src/ipc-linux.h:160-171 | The flag that replaces all peers is in the first message if the device asks for it, and in no other |
| `Kernel.MessagesApply` | Wireguard/src/uapi/linux/linux/wireguard.h:117-127 | However a device is cut into messages, they have the effect of the device given whole, replacing all peers included, from every kernel state |
| `PeerList.Reader.Coalesce` | Wireguard/src/ipc-linux.h:454-474 | The in-place pass joins the runs of equal keys; it reaches a null tail exactly on the lists that Survives excludes |
| `PeerList.CoalescedGroups` | Wireguard/src/ipc-linux.h:454-474 | The pass gives one peer per run of equal keys, with the first member's settings and the run's allowed IPs in order |
| `PeerList.GroupedApart` | Wireguard/src/ipc-linux.h:454-474 | No two neighbours of the result share a key |
| `PeerList.SurvivesExactly` | Wireguard/src/ipc-linux.h:460-468 | The pass never follows a null tail if and only if no peer appears with allowed IPs, then without, and then again |
| `PeerList.LostTail` | Wireguard/src/ipc-linux.h:460-468 | Three readings of one peer, with allowed IPs, without, and then again, on which the pass would follow a null tail |
| `GetDevice.ReadFresh` | Wireguard/src/ipc-linux.h:276-452 | Whatever bytes come, every peer the reader appends has a null tail exactly if it has no allowed IPs, which is what the pass is exact about |
| `GetDevice.RefusesIp` | Wireguard/src/ipc-linux.h:306-324 | An allowed IP is refused exactly if it is neither IPv4 with a prefix length up to 32 nor IPv6 with one up to 128, and ends the reading |
| `GetDevice.SomeByteSet` | Wireguard/src/ipc-linux.h:339-345 | A preshared key counts as one exactly if some byte of it is not 0 |
| `GetDevice.PassedOver` | Wireguard/src/ipc-linux.h:326-380 | An attribute of a peer with a wrong length, a wrong address family or an unknown number changes nothing |
| `GetDevice.KeylessEnds` | Wireguard/src/ipc-linux.h:381-403 | A peer without a key ends the reading |
| `GetDevice.RefusedEnds` | Wireguard/src/ipc-linux.h:449-452 | The reading of a dump ends, refused, with the first message that is refused, whatever came before and after it |
| `Reassembly.IpsRead` | Wireguard/src/ipc-linux.h:276-324 | Reading a printed allowed-IP nest appends every address in order |
| `Reassembly.FragRead` | Wireguard/src/ipc-linux.h:326-403 | Reading one appearance of a peer gives its key, its settings if it is the first, a preshared key exactly if some byte of it is not 0, and its allowed IPs |
| `Reassembly.MessageRead` | Wireguard/src/ipc-linux.h:405-452 | Reading one message gives the device settings if it carries them and appends its peers |
| `Reassembly.Regrouped` | Wireguard/src/ipc-linux.h:454-474 | Grouping the readings of a split gives every peer back whole |
| `Reassembly.SplitSurvives` | Wireguard/src/ipc-linux.h:454-474 | The reading of a split never strands the tail |
| `Reassembly.SplitThenReassemble` | Wireguard/src/ipc-linux.h:142-474 | Split, send, walk, parse and coalesce: the settings, and every peer with its keys, endpoint, keepalive and allowed IPs in order, for any number of peers whose neighbours differ |
| `Reassembly.NeighboursNeeded` | Wireguard/src/ipc-linux.h:454-474 | No joined list can equal a peer list with equal neighbouring keys, so the condition is needed |
| `Reassembly.LostTailRead` | Wireguard/src/ipc-linux.h:405-474 | A well-formed message whose reading the pass does not survive |
| `Reassembly.RoundTrip` | Wireguard/src/ipc-linux.h:142-474 | The two ends run one after the other, on the byte buffers |
| `SyncConf.MemcmpEqual` | Wireguard/src/setconf.c:21-28 | The comparison is zero exactly for equal keys and antisymmetric |
| `SyncConf.RemovedLaw` | Wireguard/src/setconf.c:77-95 | For every key: removed as often as the interface lists it, less once if the file has it |
| `SyncConf.PubkeyCmpExactly` | Wireguard/src/setconf.c:21-28 | Keys are ordered by their first byte that differs; of one key the interface's comes before the file's, by 1; only a key from the same side compares as equal |
| `SyncConf.RemovedExactly` | Wireguard/src/setconf.c:77-95 | A key the interface lists once is removed exactly if the file lacks it, and once |
| `SyncConf.SessionsKept` | Wireguard/src/setconf.c:77-95 | No peer of the file is removed if and only if the interface lists each of them at most once |
| `SyncConf.DuplicateRemoved` | Wireguard/src/setconf.c:77-95 | For every file and interface: a peer listed twice on the interface is removed although the file keeps it |
| `SyncConf.File.Sync` | Wireguard/src/setconf.c:30-99 | The request in place: unchanged when the file or the interface has no peers or the fetch failed, otherwise no replacement and the removals pushed before the file's peers |
| `SyncConf.SyncRefinesReplace` | Wireguard/src/setconf.c:30-99 | On every success path applying the rewritten request leaves the same peers and the same owner of every allowed IP as the full replacement |
| `SyncConf.CatchUp` | Wireguard/src/setconf.c:30-99 | Updating peers that still own old networks ends where building from nothing ends |
| `Encoding.LetterByTrick` | Wireguard/src/encoding.c:15-20 | The branch-free letter equals the base64 table on all 64 values |
| `Encoding.ValueByTrick` | Wireguard/src/encoding.c:39-46 | The branch-free value equals the base64 table, -1 outside it, for signed and unsigned char alike |
| `Encoding.PackSign` | Wireguard/src/encoding.c:37-47 | A packed group is negative exactly if one of its characters is outside the alphabet |
| `Encoding.DecodeEncoded` | Wireguard/src/encoding.c:24-72 | Decoding inverts encoding for every key |
| `Encoding.EncodeDecoded` | Wireguard/src/encoding.c:24-72 | Encoding inverts decoding on every text that decodes |
| `Encoding.CanonicalExactly` | Wireguard/src/encoding.c:56-71 | A text decodes exactly if it is in the alphabet up to one final pad and leaves no stray bits |
| `Encoding.TextExactly` | Wireguard/src/encoding.c:24-72 | A text decodes to a key if and only if it is the key's text |
| `Encoding.KeyToBase64` | Wireguard/src/encoding.c:24-33 | Fills the buffer with the key's text and the null |
| `Encoding.KeyFromBase64` | Wireguard/src/encoding.c:50-72 | True exactly for the canonical 44-character texts, and then the key is the text's |
| `Hex.DigitByTrick` | Wireguard/src/encoding.c:78-80 | The branch-free digit equals the lower-case table |
| `Hex.MasksDecide` | Wireguard/src/encoding.c:93-109 | The flag is zero exactly for hex digits of either case, and then the masks give the digit's value |
| `Hex.DecodeHex` | Wireguard/src/encoding.c:74-114 | Decoding inverts encoding |
| `Hex.HexExactly` | Wireguard/src/encoding.c:74-114 | A text decodes to a key if and only if its lower-case form is the key's text |
| `Hex.KeyToHex` | Wireguard/src/encoding.c:74-83 | Fills the buffer with the key's digits and the null |
| `Hex.KeyFromHex` | Wireguard/src/encoding.c:85-114 | True exactly for 64 hex digits, and then the key is theirs |
| `KeyText.KeyTextFaithful` | Wireguard/src/encoding.c:24-72 | Every key's text is one word without white space or comment character that parses back to the key |
| `Text.SpaceByTrick` | Wireguard/src/ctype.h:13-17 | The bit trick accepts exactly tab to carriage return, and space |
| `Text.NumberOfNumeral` | Wireguard/src/showconf.c:40-94 | Reading a printed number gives it back, in base 10 and 16 |
| `Netmask.Validate` | Wireguard/src/config.c:308-338 | True exactly if no bit of the address beyond the prefix length is set, for one and four words |
| `Config.ParseAllowedIps` | Wireguard/src/config.c:340-411 | Appends exactly the entries of the list behind the tail and moves the tail to the end, or fails exactly if one entry does not parse; the empty value adds none |
| `ConfigLaws.EntryExactly` | Wireguard/src/config.c:370-386 | An address with a prefix length is IPv6 exactly if it has a colon, and is accepted exactly if it parses and the length is at most 128 or 32 |
| `ConfigLaws.EntryWithoutMask` | Wireguard/src/config.c:383-386 | An address without a prefix length reads as the same address with /32, or with /128 |
| `ConfigLaws.MaskRefused` | Wireguard/src/config.c:377-382 | A prefix length that is no decimal number is refused |
| `ConfigLaws.FwmarkExactly` | Wireguard/src/config.c:76-103 | A mark is off in any case, a decimal number or a hexadecimal one after 0x, up to 2^32 - 1; nothing else is |
| `ConfigLaws.KeepaliveExactly` | Wireguard/src/config.c:281-305 | A keepalive is off in any case or a decimal number up to 65535; nothing else is |
| `ConfigLaws.PortMissing` | Wireguard/src/config.c:202-247 | An endpoint without a port, or with an open bracket, is refused |
| `ConfigLaws.KeyInAnyCase` | Wireguard/src/config.c:413-480 | A key is recognised in any case, and its value is all that follows |
| `ConfigLaws.CommentIgnored` | Wireguard/src/config.c:482-513 | A comment says nothing |
| `ConfigLaws.SpaceIgnored` | Wireguard/src/config.c:482-513 | White space says nothing, wherever it stands |
| `ConfigLaws.NoEquals` | Wireguard/src/config.c:413-480 | A line that is neither a section nor a key with a value is refused in every section |
| `ConfigLaws.FilePlain` | Wireguard/src/config.c:515-526 | Whatever a file says: nothing unsaid is set when it is appended, the whole device is replaced when not, and its peers are such as synchronising asks for |
| `ConfigLaws.KeylessRefused` | Wireguard/src/config.c:528-543 | A configuration with a peer that has no key is refused |
| `Config.LinkAtTail` | Wireguard/src/config.c:394-398 | Hanging a node behind the true tail loses nothing |
| `Config.Context.ProcessLine` | Wireguard/src/config.c:413-481 | The in-place update is what the line means, and after it both tail pointers are the true tails |
| `Config.Context.ReadOneLine` | Wireguard/src/config.c:483-515 | Stripping the comment and all white space in one loop, then processing |
| `ShowConf.IpsCleaned` | Wireguard/src/showconf.c:57-73 | The printed allowed-IP list, cleaned, is its entries with one comma between each two |
| `ShowConf.EndpointParsed` | Wireguard/src/showconf.c:75-90 | Printed endpoints, bracketed or not, split back into the host and service they were made of |
| `ShowConf.EndpointBrackets` | Wireguard/src/showconf.c:75-90 | An endpoint is printed in brackets exactly if it is IPv6 and its host has a colon |
| `ShowConf.EndpointBack` | Wireguard/src/showconf.c:75-90 | An endpoint whose name resolves to its canonical address comes back from the text if and only if its padding (IPv4) or flow label (IPv6) is zero |
| `ShowConf.EndpointsBack` | Wireguard/src/showconf.c:75-90 | All endpoints of a device come back if and only if those bytes of each are zero |
| `ShowConf.PaddingLost` | Wireguard/src/showconf.c:75-90 | An IPv4 endpoint with a byte of padding set, which does not come back |
| `ShowConf.ReadPeers` | Wireguard/src/showconf.c:50-97 | Reading the printed peers appends them in order |
| `ShowConf.PrintThenParse` | Wireguard/src/showconf.c:40-97 | For every device whose allowed IPs have known families and whose endpoint names resolve: the printed text, read line by line, rebuilds port, mark, private key and every peer's keys, allowed IPs and keepalive in order, and as endpoint what its name resolves to |
| `ShowConf.Show` | Wireguard/src/showconf.c:40-97 | The printing loops produce the specified lines |
| `ShowConf.ShowThenRead` | Wireguard/src/showconf.c:40-97 | Printer and reader one after the other, with the tail pointers true at the end |
| `CacheDb.AdjustMsgTtl` | unbound-dns/cachedb/cachedb.c:475-511 | Every TTL of the message and of its records less the time, at least 0; all 0 for a negative time |
| `CacheDb.SetMsgTtl` | unbound-dns/cachedb/cachedb.c:513-539 | Every TTL fixed |
| `CacheDb.AdjustedExactly` | unbound-dns/cachedb/cachedb.c:475-511 | What adjusting leaves of every TTL, of the message, of an RRset and of each record, and of the time added to it |
| `CacheDb.LimitedAgain` | unbound-dns/util/data/msgreply.c:219-249 | The parser's limits on a record's TTL, those for the SOA of a negative answer included, change nothing the second time |
| `CacheDb.ParsedIsCarried` | unbound-dns/util/data/msgreply.c:465-489 | A message as the parser makes it, with its TTLs made anew from those of its records, crosses the wire unchanged |
| `CacheDb.NeverLonger` | unbound-dns/util/data/msgreply.c:219-249 | Crossing the wire lengthens a record's time if and only if it is below the parser's lower limit, which for the SOA record of a negative answer follows the rules for negative TTLs |
| `CacheDb.CarriedAtMost` | unbound-dns/util/data/msgreply.c:465-489 | The TTL the parser makes for a message is at most a bound if and only if one of its records is left with such a TTL, or the upper limit is that low; without records it is 5 seconds |
| `CacheDb.ShortestKept` | unbound-dns/util/data/msgreply.c:465-489 | A message stored with the TTL of one of its records, as the code says it is, is not lengthened if that record is not below the lower limit |
| `CacheDb.EntryReads` | unbound-dns/cachedb/cachedb.c:430-445 | Message, time and expiry are read back from the bytes of an entry, for all times that fit 64 bits |
| `CacheDb.MalformedRefused` | unbound-dns/cachedb/cachedb.c:552-576 | An entry too short for a header and the two times, or whose message does not parse, is refused |
| `CacheDb.NetworkOrder` | unbound-dns/cachedb/cachedb.c:430-445 | The times are stored most significant byte first |
| `CacheDb.LookupRecalls` | unbound-dns/cachedb/cachedb.c:449-641 | The expiry check and the parse of the bytes do exactly what the stored message, the time and the clock say |
| `CacheDb.RecalledSafe` | unbound-dns/cachedb/cachedb.c:541-641 | A store serves exactly within its expiry, or as long after it as configured, and within the TTL the parser gave it unless expired replies are served; then it is aged until that TTL is over and 0 after that, no TTL reaches past the end the parser gave it, and the recheck of the result code never refuses |
| `CacheDb.ExpiryKept` | unbound-dns/cachedb/cachedb.c:430-641 | Of every entry, whenever it is read: what is served has TTL 0 or ends no later than the expiry recorded in the entry, if and only if the TTL the parser makes is 0 or no longer than the one stored |
| `CacheDb.RaisedBeyondExpiry` | unbound-dns/cachedb/cachedb.c:541-641 | A stored record that is served for an hour, since the configured least TTL raises it, though it was recorded to expire after 10 seconds |
| `CacheDb.NoRecordsBeyondExpiry` | unbound-dns/cachedb/cachedb.c:541-641 | Under the default limits, a reply without records that is served for 5 seconds though it was recorded to expire after 1 |
| `CacheDb.RecordKept` | unbound-dns/cachedb/cachedb.c:475-491 | No record is served beyond its own end, whenever it is asked for, if it is not below the parser's lower limit; and it is at once if it is, unless the message was over when stored |
| `CacheDb.AgedExactly` | unbound-dns/cachedb/cachedb.c:605-627 | Of a served entry, whatever its bytes hold: every record has its own remaining time if and only if the message has not expired or no TTL in it exceeds the time that passed |
| `CacheDb.RecordOutlivesMessage` | unbound-dns/cachedb/cachedb.c:613-627 | A message of two records that shows the difference |
| `CacheDb.TestsAgree` | unbound-dns/cachedb/cachedb.c:630-638 | The test on the TTL and the test on the expiry, which the code calls redundant, agree at all times if and only if the parser makes the TTL the message was stored with |
| `CacheDb.NoRecordsRefused` | unbound-dns/cachedb/cachedb.c:605-627 | A stored reply that passes the one test and fails the other |
| `CacheDb.Cache.ParseInto` | unbound-dns/cachedb/cachedb.c:541-641 | The in-place parse leaves in the query what the entry and the clock say, on every path |
| `CacheDb.Cache.ExtcacheStore` | unbound-dns/cachedb/cachedb.c:675-690 | Puts the entry under the hash exactly if the result code is 0, 3 or 6, the TTL is not 0 or expired replies are served, and it fits; changes nothing else |
| `CacheDb.Cache.ExtcacheLookup` | unbound-dns/cachedb/cachedb.c:647-670 | Succeeds exactly if what is held under the hash serves, and leaves exactly that in the query |
| `CacheDb.Cache.IntcacheStore` | unbound-dns/cachedb/cachedb.c:736-763 | An expired message enters the internal cache as expired and leaves with every TTL 0 |
| `CacheDb.ZeroAgain` | unbound-dns/cachedb/cachedb.c:736-763 | The detour through the internal cache leaves an expired answer as it was |
| `CacheDb.Cache.HandleQuery` | unbound-dns/cachedb/cachedb.c:773-850 | The whole state a query event leaves, in terms of what is held under the hash: passed on, answered internally, answered from here, or held back for a refetch |
| `CacheDb.Cache.HandleResponse` | unbound-dns/cachedb/cachedb.c:859-881 | Stores exactly if enabled, allowed and fit, claims no answer, and finishes |
| `CacheDb.Cache.Operate` | unbound-dns/cachedb/cachedb.c:883-931 | The event dispatch: the whole new state for every event, SERVFAIL for an unexpected one; only a query claims an answer, only a finished query stores |
| `CacheDb.HoldsNext` | unbound-dns/cachedb/cachedb.c:675-690 | What is held under each key is the latest store there that was not lost, after every event |
| `CacheDb.AskAnswered` | unbound-dns/cachedb/cachedb.c:773-850 | How a question ends: passed on, answered internally, or answered from here, which is exactly if the latest unlost store under its hash is fit, and then safely; what is left in the query, and whether it is to be fetched again |
| `CacheDb.Run` | unbound-dns/cachedb/cachedb.c:883-931 | Over any sequence of queries, responses, errors and lost entries with any clock readings: how every event ends, down to the message and the refetch left in a query that is passed on; a question is answered from the cache if and only if it may be looked up, nothing internal answers it, and the latest unlost store under its hash is within its limits and no client waits for a refetch; the answer is what that store has become, and has TTL 0 or ends no later than the expiry recorded at the store unless the parser lengthened that TTL; the cache holds exactly the latest unlost stores, all with result code 0, 3 or 6 |
| `Events.MinAvgMax` | glances-develop/glances/events.py:165-178 | MIN <= AVG <= MAX for every event that sums up values |
| `Events.AccountsUpdated` | glances-develop/glances/events.py:164-188 | Folding in one more report leaves the account of all reports since the event was opened |
| `Events.AccountsClosed` | glances-develop/glances/events.py:152-163 | A calm report later than its peak time closes the event and completes its account |
| `Events.ReplayConsistent` | glances-develop/glances/events.py:92-206 | After any run: at most ten events, the newest first, no type open twice, and each the account of its type's reports since the alert that opened it: count, sum, extremes and average of exactly those values, CRITICAL if one was, no calm one among them, and if over closed by the calm report whose time and peak time it carries |
| `Events.AlertOpensCalmCloses` | glances-develop/glances/events.py:92-163 | After any run and an alert its type has an open event; after a calm report it has none |
| `Events.AlertInFront` | glances-develop/glances/events.py:112-148 | A new alert comes first, and the last event goes only if ten are there |
| `Events.KeptExactly` | glances-develop/glances/events.py:192-206 | A clean-up keeps of each event as many as there were if it is going on, or CRITICAL and not asked to go; of any other none |
| `Events.KeptInOrder` | glances-develop/glances/events.py:192-206 | A clean-up keeps the order |
| `Events.ExtremesExactly` | glances-develop/glances/events.py:171-174 | MIN and MAX are reported values, and none is beyond them |
| `Events.SortKeyExactly` | glances-develop/glances/events.py:68-80 | Memory alerts sort by memory, I/O wait by I/O, all others by CPU |
| `Events.Log.EventExist` | glances-develop/glances/events.py:55-66 | The position of the open event of a type, or -1 |
| `Events.Log.CreateEvent` | glances-develop/glances/events.py:112-148 | Added in front only for an alert, the oldest dropped beyond ten |
| `Events.Log.UpdateEvent` | glances-develop/glances/events.py:150-190 | Closed if it lasted longer than the peak time, removed if not, otherwise folded in; removing by value removes no other event |
| `Events.Log.Add` | glances-develop/glances/events.py:92-110 | The log is again the replay of all operations, this one included |
| `Events.Log.Clean` | glances-develop/glances/events.py:192-206 | Keeps exactly the open events and, unless asked otherwise, the CRITICAL ones, in order |
| `Events.Run` | glances-develop/glances/events.py:92-206 | The log after any sequence of reports and clean-ups is their replay and accounts for them, with every average between its extremes |
| `StringList.List.Add` | Wireguard/src/ipc.c:18-41 | The buffer stays in bounds, holds the strings so far, and ends with two nulls; an empty string is left out |
| `StringList.WalkPacked` | Wireguard/src/show.c:397-399 | The strlen walk recovers exactly the strings, in order, whatever follows them in the buffer |
| `StringList.AddAll` | Wireguard/src/ipc.c:18-41 | After any additions the walk sees exactly the nonempty strings, in order |
| `StringList.NonemptyExactly` | Wireguard/src/ipc.c:18-41 | What counts as seen is of each string as many as were added, but of the empty one none |

Six promises turned out to hold only under a condition; each has the exact condition and an input:

- Coalescing is safe if and only if no peer's allowed IPs stop and start again within a run of equal
  keys (`PeerList.SurvivesExactly`, `Reassembly.LostTailRead`). The fragmenter never produces such a run.
- `syncconf` leaves the peers of the file alone if and only if the interface lists each of them at
  most once (`SyncConf.SessionsKept`, `SyncConf.DuplicateRemoved`). The final state is right either way.
- An endpoint survives printing and reading, where names resolve to canonical addresses, if and only if
  its padding or flow label is zero (`ShowConf.EndpointBack`, `ShowConf.PaddingLost`).
- A reply from the cache has TTL 0 or ends by the expiry recorded when it was stored, at all times, if
  and only if the TTL the parser makes is 0 or no longer than the one stored (`CacheDb.ExpiryKept`,
  `CacheDb.RaisedBeyondExpiry`, `CacheDb.NoRecordsBeyondExpiry`). A run keeps it for every such store
  (`CacheDb.Run`).
- The cache's test on the TTL and its test on the expiry agree if and only if the parser makes the TTL
  that was stored (`CacheDb.TestsAgree`, `CacheDb.NoRecordsRefused`). It does for every message that is
  as a parser made it (`CacheDb.ParsedIsCarried`).
- The records of a served message have their own remaining times if and only if the message has not
  expired or none of its TTLs exceeds the time since it was stored (`CacheDb.AgedExactly`,
  `CacheDb.RecordOutlivesMessage`).

## Left out

- Agreement.GenericIsX25519: takes the primality of 2^255 - 19 as a hypothesis; Fermat's theorem is proved from it.
- The elliptic-curve group law: X25519 is specified by the ladder of RFC 7748, not by points on the curve.
- Constant-time behaviour, erasing of secrets, byte-order macros and the choice between the two implementations.
- Hacl64Format.Fcontract: asks for reduced limbs, which is all the code ever passes to it.
- GetDevice: the attribute callbacks are functions on records rather than updates of linked nodes; the interface name, handshake time and byte counters are not read.
- PeerList.Reader.Coalesce: lists are sequences, and of the tail pointer only whether it is null is kept; freeing is not modelled.
- KernelInput.SendDevice: for allowed IPs of known families and lengths; the kernel refuses a message with any other.
- SetDevice.KernelSetDevice: the netlink header's type, flags and sequence number are not part of the buffer's contents.
- Out-of-memory paths, socket errors other than a refused message, and retries after an interrupted dump.
- Config.Context.ProcessLine: name resolution is one call of the codec, without the retry loop; numbers beyond 64 bits are refused like any number out of range, as where `unsigned long` has 64 bits.
- `wg set` argument parsing and key files, which use the same value parsers.
- CacheDb.Cache.HandleQuery: the prefetch and serve-expired TTL fields, extended errors, and what the mesh sends to waiting clients.
- CacheDb.Faithful: the wire format is taken to give back everything but the TTLs; messages beyond 64 KiB, which the encoder truncates, and `serve-original-ttl` are not modelled.
- CacheDb.Run: the clock and the expiry of a stored reply are 64-bit signed times; a failed allocation of the query state is not modelled.
- Events.Log.UpdateEvent: values and times are real numbers, not floating point; the top-process list is a parameter.
- StringList.List.Add: sizes are unbounded integers, and reallocation always succeeds.
- The FreeBSD, OpenBSD, Windows and userspace interfaces, `show` and terminal formatting, key generation.
- The web interface, the rest of Glances and of Unbound, and the shell utilities: mostly input and output.

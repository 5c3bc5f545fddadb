# ManyTier packet transport: a verified model

ManyTier is a ZeroTier-compatible node written in Rust. This project models its packet
transport and the stateful indexes around it, and proves what they promise.

- **Fragments** (`Fragment`, `FragmentRuns`, `FragmentHistory`): the splitter, and the bounded reassembly buffer with
  oldest-first eviction, over arbitrary runs of arrivals and sweeps.
- **Network configurations** (`NetworkConfig`, `NetworkConfigRuns`): the byte-level chunk assembler and the
  controller's chunker.
- **Armor** (`SalsaArmor`, `AesGmacSiv`, `Relay`): in-place encryption and authentication of packets, and why
  relays may raise the hop count underneath it.
- **Receiving** (`Node`, `NodeRuns`, `PendingPackets`): the re-entrant receive path, its termination measure, the queue
  of packets that wait for a WHOIS, and whole runs of datagrams.
- **Codecs** (`Dictionary`, `Text`, `World`, `InetAddress`, `IdentityWire`): escaped dictionaries and world files,
  printers and parsers.
- **Neighbour discovery** (`Ndp`): the ICMPv6 checksum and the advertisements sent under it.
- **Indexes** (`Multicast`, `Topology`, `Peer`, `Switch`, `ConfigRequests`, `IpPool`): each proved against
  something simpler: a map, a union of sets, a rate limit over runs, a minimum, a first free element.
- **The send pipeline** (`Pipeline`): building, armor, fragments, reassembly, relays and the receive path composed.

Code that changes state in place is modelled by classes, arrays and loops, and each method is proved against a
function of its inputs or of the old state; the theorems are about those functions, about every state of the
classes, or about all runs.

What the model takes as parameters: the insides of Salsa20/12, Poly1305, AES and the GHASH multiplication are
functions of which nothing is assumed (except, where AES armor is undone, that block decryption inverts block
encryption); likewise signature verification, decompression, the decoding of verb payloads and the handlers of
single verbs, which may keep any state of their own. Times are arguments. Machine integers are bounded, and wrap-around, saturation and truncation are
written out where the code has them.

Where the code and its documentation or expectations differ, the model follows the code:

- The ICMPv6 sum is exact up to 131,039 bytes of body (`Ndp.SumFits`, `Ndp.SumOverflows`). Beyond that the written
  checksum still recomputes to zero (`Ndp.RecomputesToZero`), but a receiver accepts it exactly when the carries lost
  are a multiple of 65,535 (`Ndp.AcceptedExactly`); `Ndp.OnesAreRejected` gives a body that is rejected.
- A second planet leaves the first one's roots in the root list: `Topology.Topology.LoadPlanet` has the exact condition,
  `Topology.SecondPlanetLeavesRoots` the planets.
- Loading a moon panics exactly if its verifying key can be decoded and its signed portion exceeds the verification
  buffer of 4,096 bytes (`World.VerifySignature`, `Topology.Topology.LoadMoon`); `World.FullestMoonOverruns` says which of
  the fullest moons do.
- An empty multicast advertisement names no network and so withdraws nothing (`Multicast.AdvertisementDelivers`). A node
  sends none for a network it has no group on (line 2543 of `node.rs`), so an empty message can only come from another
  sender; that a member has left its last group is noticed by expiry alone.
- A request for a configuration sent at time zero is not remembered (`ConfigRequests.UnansweredIsRepeated`,
  `ConfigRequests.TimeZeroIsForgotten`), nor is one that NETWORK_CREDENTIALS follow (`ConfigRequests.CredentialsForget`) or
  another join of the same network (`ConfigRequests.RejoinForgets`). Leaving a network and joining it again makes a new
  membership, with a limit of its own.
- A packet that names suite 0 is acted on under any verb whether or not its MAC verifies (`Node.ActedOnUnverified`,
  `Node.UnverifiedOutcome`).
- A dictionary key holding `=`, CR or LF does not survive (`Dictionary.RoundTrip`).
- Packets of a sender whose address begins with 0xff are taken for fragments by every relay and receiver, and are never
  delivered (`Pipeline.ArrivedIsAccepted`, `Pipeline.SentIsDelivered`), although only the all-ones address is reserved.

`dafny verify dfyconfig.toml` checks everything.

## Model

| member | source | states |
|---|---|---|
| `Fragment.FragmentPacket` | crates/zerotier-protocol/src/fragment.rs:112-152 | A packet is passed on whole if it fits the MTU, split if a whole header fits into at most seven pieces, and refused otherwise. The pieces are at most `mtu` bytes, are recognised as fragments, decode to the packet's ID, their index and their total, and joined in order give the packet. |
| `Fragment.FragmentLayout` | crates/zerotier-protocol/src/header.rs:58-86 | Where a fragment carries packet ID, destination, indicator, total, number and hop count. |
| `Fragment.ReassemblyBuffer.Insert` | crates/zerotier-protocol/src/fragment.rs:44-99 | Bad numbers are ignored; room is made by evicting the oldest entry; the first copy of a fragment is kept; the first total seen for a packet counts; the assembled packet comes out, and its entry goes, when the count reaches that total. |
| `Fragment.ReassemblyBuffer.EvictStale` | crates/zerotier-protocol/src/fragment.rs:102-105 | Exactly the entries as old as the timeout or older go. |
| `Fragment.AssembleSlot` | crates/zerotier-protocol/src/fragment.rs:83-98 | The stored pieces are put together in index order. |
| `Fragment.InsertKeepsInvariant` | crates/zerotier-protocol/src/fragment.rs:44-99 | Even when fragments disagree about the total, every pending entry keeps 1 <= received = filled positions < expected <= 7, and there are at most max(1, capacity) entries. |
| `Fragment.EvictionTakesOldest` | crates/zerotier-protocol/src/fragment.rs:52-65 | An eviction for room removes one entry, and none was created before it. |
| `Fragment.InsertConservesBytes` | crates/zerotier-protocol/src/fragment.rs:44-99 | The bytes handed out and still stored never exceed the bytes stored before and received. |
| `FragmentRuns.RunKeepsInvariant` | crates/zerotier-protocol/src/fragment.rs:44-105 | The buffer's invariant holds after every run of insertions and sweeps. |
| `FragmentRuns.ReassemblyDelivers` | crates/zerotier-protocol/src/fragment.rs:67-98 | In every run in which no other event evicts the unfinished packet or sweeps it out, every arrival of a piece hands out the packet exactly if it is the last one missing since the packet was last complete, and nothing otherwise. |
| `FragmentRuns.FirstCompletion` | crates/zerotier-protocol/src/fragment.rs:67-98 | In such a run, pieces arriving in any order, repeated and interleaved with any number of other packets' give nothing until all numbers have arrived, and then their concatenation. |
| `FragmentRuns.FragmentsReassemble` | crates/zerotier-protocol/src/fragment.rs:44-152 | Reassembly undoes splitting: the fragments of a packet that is not evicted, in any order, repeated and interleaved, give nothing until the last distinct one and then exactly the packet. |
| `FragmentRuns.RoomyIsUndisturbed` | crates/zerotier-protocol/src/fragment.rs:52-65 | Nothing is evicted from a buffer with room for all packets of the run, or swept out within the timeout. |
| `FragmentRuns.InOrderDelivers` | crates/zerotier-protocol/src/fragment.rs:44-152 | In particular, pieces sent in order to an empty buffer give nothing until the last and then the packet. |
| `FragmentHistory.HeldIsHistory` | crates/zerotier-protocol/src/fragment.rs:67-85 | Over every run, with conflicting totals, contents and numbers: a pending entry holds each number's first copy since the arrival that opened it, counted once, under that arrival's total, and is as old as that arrival as long as it stays. |
| `FragmentHistory.CompletionByHistory` | crates/zerotier-protocol/src/fragment.rs:67-98 | Over every run: an arrival completes its packet exactly when the different numbers since the opening arrival reach that arrival's total, and hands out the first copies in the order of their numbers. |
| `FragmentHistory.RefusedIsIgnored` | crates/zerotier-protocol/src/fragment.rs:52-57 | A fragment that claims no fragments, more than seven or a number outside its total changes nothing. |
| `FragmentHistory.SweepByHistory` | crates/zerotier-protocol/src/fragment.rs:102-105 | A sweep takes an entry exactly when the timeout has passed since the arrival that opened it. |
| `FragmentHistory.EvictionByHistory` | crates/zerotier-protocol/src/fragment.rs:59-69 | An eviction for room happens only for a new packet in a full buffer, and takes the packet whose opening arrival came first, the least ID of several; the others stay. |
| `FragmentHistory.EveryEntryWasOpened` | crates/zerotier-protocol/src/fragment.rs:71-79 | In a run from an empty buffer every entry has such an opening arrival. |
| `NetworkConfig.PendingNetworkConfig.constructor` | crates/zerotier-node/src/node.rs:124-133 | A fresh assembly: nothing received, both buffers of the announced length. |
| `NetworkConfig.PendingNetworkConfig.Ingest` | crates/zerotier-node/src/node.rs:135-144 | The chunk's bytes are put in place and flagged, the last copy of a byte winning, and the count is the number of flags. |
| `NetworkConfig.ConfigAssembler.Assemble` | crates/zerotier-node/src/node.rs:1687-1820 | A whole dictionary passes through; a chunk outside an acceptable length is dropped; a chunk of another update or length starts its network over; a complete dictionary leaves the list. At most one assembly per network, each of 1 to 1,048,576 bytes. |
| `NetworkConfig.ConfigAssembler.SwapRemove` | crates/zerotier-node/src/node.rs:1800-1812 | A finished assembly is taken out, the last one filling its place. |
| `NetworkConfigRuns.AssemblyInvariant` | crates/zerotier-node/src/node.rs:113-149 | Over every sequence of payloads, well-formed or conflicting: each flagged byte of a network's assembly holds the last value written there since the last restart, and the count is the number of flags and below the length. |
| `NetworkConfigRuns.AssembleKeepsMatch` | crates/zerotier-node/src/node.rs:1716-1798 | One payload keeps every network's assembly in step with what its own chunks have written, and touches no other network's. |
| `NetworkConfigRuns.ShowsDecides` | crates/zerotier-node/src/node.rs:146-148 | The count reaches the length exactly when every byte has been written. |
| `NetworkConfigRuns.ChunkDictionary` | crates/zerotier-service/src/service.rs:609-646 | The sender's chunks: at most 1024 bytes each, each labelled with its offset and signed, covering every byte of the dictionary; none if its length does not fit 32 bits or there is no key to sign with. |
| `NetworkConfigRuns.SignedDataIsUnique` | crates/zerotier-service/src/service.rs:617-625 | What is signed determines network, update, length, offset and bytes of the chunk. |
| `NetworkConfigRuns.DictionaryDelivered` | crates/zerotier-node/src/node.rs:1687-1820 | Chunks of a dictionary, in any order, repeated and interleaved with other networks' payloads, give nothing until every byte is covered and then exactly the dictionary, with network, flags, update ID, length and signature type as in the last chunk, index 0 and no signature. |
| `NetworkConfigRuns.AllChunksComplete` | crates/zerotier-service/src/service.rs:615-634 | Once every payload the sender made has arrived, every byte is covered. |
| `NetworkConfigRuns.WholeIsHandedOn` | crates/zerotier-node/src/node.rs:1691-1693 | Over runs: a payload without update ID, length and index is handed on as it is, and no assembly changes. |
| `NetworkConfigRuns.MalformedIsRefused` | crates/zerotier-node/src/node.rs:1694-1755 | Over runs: a payload with some of the three but not all, or outside its dictionary's bounds, gives nothing and changes nothing. |
| `Relay.IncrementHops` | crates/zerotier-node/src/switch.rs:71-83 | One hop more in the low three bits of byte 18 and nothing else changed, or, at the limit or on a short packet, refused and unchanged. |
| `Relay.RelayedHops` | crates/zerotier-node/src/switch.rs:71-83 | Any number of relays changes only the hop count, keeps the cipher bits, and succeeds exactly up to the hop limit. |
| `Relay.AtMostThreeHops` | crates/zerotier-node/src/switch.rs:71-83 | From hop count zero exactly three relays succeed. |
| `SalsaArmor.MangleKey` | crates/zerotier-crypto/src/salsa.rs:32-52 | The per-packet key: the secret mixed with ID, addresses, flags without hop count, and size. |
| `SalsaArmor.MangledParts` | crates/zerotier-crypto/src/salsa.rs:32-52 | What is mixed into the secret: the first 18 bytes of the packet, the flags without hop count, and the size modulo 2^16, least significant byte first; bytes 21 to 31 stay. |
| `SalsaArmor.EqualKeys` | crates/zerotier-crypto/src/salsa.rs:32-52 | Under one secret two packets have the same key exactly if they agree in ID, addresses, flags but for the hop count, and size modulo 2^16. |
| `SalsaArmor.Salsa12.ApplyKeystream` | crates/zerotier-crypto/src/salsa.rs:54-67 | A stateful cipher over a buffer is exclusive-or with consecutive keystream bytes. |
| `SalsaArmor.ArmorPacket` | crates/zerotier-crypto/src/salsa.rs:77-111 | In place: body encrypted from keystream offset 64 if asked for, MAC over it at bytes 19 to 26; a packet without a full header is refused unchanged. |
| `SalsaArmor.ArmoredBytes` | crates/zerotier-crypto/src/salsa.rs:54-111 | Byte by byte: body byte i is combined with keystream byte 64 + i, and the MAC is the front of the Poly1305 tag of the armored body under the keystream's first 32 bytes. |
| `SalsaArmor.VerifiesExactly` | crates/zerotier-crypto/src/salsa.rs:174-205 | A packet verifies exactly if it is what armor makes of some packet. |
| `SalsaArmor.DearmorPacket` | crates/zerotier-crypto/src/salsa.rs:174-205 | A packet whose MAC does not match is refused unchanged; otherwise the body is decrypted exactly under suite 1. |
| `SalsaArmor.IsSameMac` | crates/zerotier-crypto/src/poly.rs:32-39 | The accumulating comparison finds equality exactly. |
| `SalsaArmor.KeysIgnoreHops` | crates/zerotier-crypto/src/salsa.rs:32-52 | Keys and keystream do not depend on the hop count. |
| `SalsaArmor.ArmorSurvivesRelays` | crates/zerotier-crypto/src/salsa.rs:77-205 | Dearmor after armor verifies and restores the body, however often the hop count was raised in between, when the flags say whether it was encrypted; otherwise one layer of keystream stays. |
| `SalsaArmor.CryptPacketField` | crates/zerotier-crypto/src/salsa.rs:232-254 | A field is exclusive-ored with the raw secret's keystream, the nonce's low bits cleared; a field outside the packet is refused. |
| `SalsaArmor.FieldBytes` | crates/zerotier-crypto/src/salsa.rs:232-254 | Byte by byte: a field's byte i is combined with byte i of the secret's own keystream, the last nonce byte without its low three bits; all other bytes stay. |
| `SalsaArmor.FieldCryptedTwice` | crates/zerotier-crypto/src/salsa.rs:232-254 | Crypting a field behind the packet ID twice restores it. |
| `AesGmacSiv.FeedPadded` | crates/zerotier-crypto/src/aes_gmac_siv.rs:116-128 | Data is hashed in whole blocks, the last one zero-padded. |
| `AesGmacSiv.GmacCompute` | crates/zerotier-crypto/src/aes_gmac_siv.rs:55-104 | The tag is the hash of padded additional data, padded data and bit lengths, masked with the encrypted first counter block. |
| `AesGmacSiv.GmacIsGhash` | crates/zerotier-crypto/src/aes_gmac_siv.rs:55-128 | The tag is GHASH (section 6.4 of NIST SP 800-38D) of padded additional data, padded body and one block with the bits in the former and in the bare body, masked by the encryption of the IV with the counter one. |
| `AesGmacSiv.AesCtrEncrypt` | crates/zerotier-crypto/src/aes_gmac_siv.rs:14-34 | The in-place loop is exclusive-or with the counter-mode keystream whose counter wraps in its last 32 bits only (section 6.5 of NIST SP 800-38D). |
| `AesGmacSiv.IncrementCounter` | crates/zerotier-crypto/src/aes_gmac_siv.rs:24-32 | The last four bytes of the counter block count modulo 2^32; the others stay. |
| `AesGmacSiv.CounterDoesNotWrap` | crates/zerotier-crypto/src/aes_gmac_siv.rs:180-190 | With the counter's top bit cleared the first 2^31 blocks are consecutive numbers. |
| `AesGmacSiv.ArmorPacket` | crates/zerotier-crypto/src/aes_gmac_siv.rs:136-193 | In place: the encrypted [IV, MAC] block replaces packet ID and MAC, and the body is encrypted under it; a short packet is refused unchanged. |
| `AesGmacSiv.ArmoredBytes` | crates/zerotier-crypto/src/aes_gmac_siv.rs:136-178 | On the wire the ID and MAC fields are the encryption of the ID and the tag's two halves combined; addresses and flags are in the clear. |
| `AesGmacSiv.ArmoredBody` | crates/zerotier-crypto/src/aes_gmac_siv.rs:180-190 | Body byte i, for i / 16 below 2^31, is combined with byte i % 16 of the encryption of the block on the wire, its last four bytes read as a number, without the top bit, and raised by i / 16. |
| `AesGmacSiv.DearmorPacket` | crates/zerotier-crypto/src/aes_gmac_siv.rs:198-253 | The body is decrypted in place whether or not the MAC matches, and the answer is whether it does. |
| `AesGmacSiv.DearmorInvertsArmor` | crates/zerotier-crypto/src/aes_gmac_siv.rs:136-253 | Armor leaves addresses and flags alone; dearmor after armor answers true, restores every byte from offset 27 and leaves the header as it arrived. Assumes only that block decryption inverts encryption. |
| `AesGmacSiv.AesArmorSurvivesRelays` | crates/zerotier-node/src/node.rs:2751-2756 | Under the additional data a node builds, relays between armor and dearmor disturb neither the MAC nor the body nor the cipher bits. |
| `AesGmacSiv.VerifiesExactly` | crates/zerotier-crypto/src/aes_gmac_siv.rs:198-253 | A packet verifies exactly if it is what armor makes of some packet. Assumes that block encryption and decryption undo each other. |
| `AesGmacSiv.AadFields` | crates/zerotier-node/src/node.rs:2751-2756 | The additional data are the addresses and the flags without the hop count. |
| `PendingPackets.EnqueueKeepsInvariant` | crates/zerotier-node/src/node.rs:514-557 | The waiting packets stay at most 32 and pairwise distinct in source, sender and packet ID; the newest is always kept. |
| `PendingPackets.EnqueueKeepsOthers` | crates/zerotier-node/src/node.rs:514-557 | A new packet joins behind the others, in the order they were, unless a copy waits in time. Exactly those that have waited more than 30,000 ms are forgotten, and the first of 32 in time if there is no copy. |
| `PendingPackets.Partition` | crates/zerotier-node/src/node.rs:559-568 | The packets of one source are taken out in arrival order, and the others stay in theirs. |
| `PendingPackets.PartitionSize` | crates/zerotier-node/src/node.rs:559-568 | What is taken and what stays are together as many as there were. |
| `PendingPackets.ReplayTrans` | crates/zerotier-node/src/node.rs:559-593 | Replays compose: for every source, what was replayed followed by what still waits is what waited before. |
| `Node.Node.QueuePendingEncryptedPacket` | crates/zerotier-node/src/node.rs:514-557 | Expired packets go first, a copy is not queued again, and the oldest goes for room. |
| `Node.Node.ReplayPendingEncryptedPacketsFor` | crates/zerotier-node/src/node.rs:559-593 | What waited for the source leaves the queue and is received, packet by packet in arrival order, at the present time or its own if that is later, with the outcome reception says; afterwards nothing from the source waits; no action is lost. |
| `Node.Node.ReplayOne` | crates/zerotier-node/src/node.rs:585-592 | A packet that waited is received with the outcome reception says; the actions queued so far are kept in front of its own. |
| `Node.Node.HandleWhoisAnswer` | crates/zerotier-node/src/node.rs:1363-1429 | The identities of an OK(WHOIS) have their turns in order, each judged by the peers known by then: a genuine one is learned and what waited for it replayed, any other is skipped. |
| `Node.IntroducedFirst` | crates/zerotier-node/src/node.rs:1386-1429 | A genuine identity gets a peer, unless its address has one, and is greeted, before what waited for it is replayed. |
| `Node.HandledByVerb` | crates/zerotier-node/src/node.rs:905-1158 | A verified packet is an OK with a WHOIS answer or goes to its verb's handler, and before that the source's path, and nothing else, is noted. |
| `Node.AnswerLearns` | crates/zerotier-node/src/node.rs:1363-1429 | An OK(WHOIS) loses no action and no waiting packet, and every identity that is genuine whoever is known already is learned by it. |
| `Node.ForgedAnswer` | crates/zerotier-node/src/node.rs:1363-1429 | An answer without a genuine identity changes nothing. |
| `Node.Node.HandleFragment` | crates/zerotier-node/src/node.rs:2039-2068 | The buffer afterwards, and the packet the fragment comes to in the end, are those of the specification, through any number of re-entries; that packet is received in the same call; no action is lost. |
| `Node.Node.ReceivePacket` | crates/zerotier-node/src/node.rs:777-1158 | Whatever state the handlers keep, receiving terminates and returns exactly the actions queued on the way, in order. The reassembly buffer, and the packet a datagram comes to, are those of the specification, and that packet has the outcome its addresses, armor and verb say; a datagram that comes to none leaves all else unchanged. |
| `Node.Node.ReceiveOwn` | crates/zerotier-node/src/node.rs:818-1158 | A packet for this node is dropped, made to wait with a WHOIS for its source, or acted on; a known source's path is noted first. |
| `Node.ReentryShrinks` | crates/zerotier-node/src/node.rs:2039-2068 | Each re-entry by a reassembled packet that is itself a fragment shrinks the bytes in hand and in the buffer by at least 16. |
| `Node.ActedOnUnverified` | crates/zerotier-node/src/node.rs:815-860 | A packet is acted on without having been verified exactly if it names suite 0 and is a HELLO or lacks the MAC of the secret shared with its source; and then as it stands, under whatever verb it names. |
| `Node.UnverifiedOutcome` | crates/zerotier-node/src/node.rs:815-1158 | A packet for this node that does not verify is handled under suite 0, and reaches no handler under any other. |
| `Node.VerifiedExactly` | crates/zerotier-node/src/node.rs:1163-1192 | A packet is verified exactly if some packet comes out as this one when armored, under its suite, with the keys shared with its source; never under an unknown suite, nor a HELLO under suite 0. |
| `Node.Node.WaitsExactly` | crates/zerotier-node/src/node.rs:820-832 | A packet waits exactly if it is no fragment, for this node, names a suite other than 0 and an unknown source, and came from an address of a known root. |
| `NodeRuns.ReceiveAll` | crates/zerotier-service/src/service.rs:296-340 | Over a run of datagrams and sweeps the buffer, the packet each arrival comes to, and what becomes of it are those of the specification, one arrival after the other. |
| `NodeRuns.BufferIsAfter` | crates/zerotier-node/src/node.rs:2039-2068 | A run of the node, re-entries included, is a run of its reassembly buffer. |
| `NodeRuns.NodeReassembles` | crates/zerotier-node/src/node.rs:2039-2068 | Over runs of the receive path: pieces in any order, repeated and mixed with any other datagrams and sweeps that do not drop the packet, come to nothing until all have arrived, and then to the packet. |
| `Dictionary.Dictionary.Serialize` | crates/zerotier-node/src/controller/dictionary.rs:97-117 | One line per entry, values escaped. |
| `Dictionary.Dictionary.Deserialize` | crates/zerotier-node/src/controller/dictionary.rs:120-191 | The parser's positions and buffers compute the entries of the specification: blank lines skipped, an equals sign demanded, escapes undone, keys checked as UTF-8. |
| `Dictionary.Dictionary.AddHex` | crates/zerotier-node/src/controller/dictionary.rs:79-81 | A number is written in lower-case hexadecimal and reads back unless an earlier entry has the key. |
| `Dictionary.Dictionary.GetHexU64` | crates/zerotier-node/src/controller/dictionary.rs:214-216 | The number in the first entry with the key, if it is text and a hexadecimal number of 64 bits. |
| `Dictionary.Dictionary.GetText` | crates/zerotier-node/src/controller/dictionary.rs:194-201 | The value of the first entry with the key, if it is valid UTF-8. |
| `Dictionary.Dictionary.GetBinary` | crates/zerotier-node/src/controller/dictionary.rs:204-211 | The value of the first entry with the key. |
| `Dictionary.RoundTrip` | crates/zerotier-node/src/controller/dictionary.rs:97-191 | Parsing undoes printing exactly when no key holds an equals sign, CR or LF. |
| `Dictionary.ReadingIsStable` | crates/zerotier-node/src/controller/dictionary.rs:97-191 | Whatever was parsed from any bytes is parsed again from its own print. |
| `Dictionary.SpreadIsRead` | crates/zerotier-node/src/controller/dictionary.rs:120-191 | Whatever the line ends (CR, LF or both), and however many before, between and after the lines, the same entries are read. |
| `Dictionary.BadLineIsRefused` | crates/zerotier-node/src/controller/dictionary.rs:131-140 | A line without an equals sign and one whose key is not UTF-8 make the whole input unreadable, with the error that says so. |
| `Dictionary.AnySpellingIsRead` | crates/zerotier-node/src/controller/dictionary.rs:143-176 | A value is read back from any spelling: bytes as they stand, named escapes, and a backslash before any other byte. |
| `Dictionary.FindIsFirst` | crates/zerotier-node/src/controller/dictionary.rs:194-211 | Looking up finds the first entry with the key, and nothing exactly if there is none. |
| `Dictionary.SerializedHasNoNul` | crates/zerotier-node/src/controller/dictionary.rs:97-117 | The print holds a zero byte exactly when a key does. |
| `Text.ParseFormat` | crates/zerotier-node/src/controller/dictionary.rs:40-42 | Reading a number in its base undoes writing it. |
| `Text.ParseLiberal` | crates/zerotier-node/src/controller/dictionary.rs:214-216 | A plus sign in front and the case of letters make no difference. |
| `InetAddress.InetAddress.Serialize` | crates/zerotier-protocol/src/inet_address.rs:17-36 | The address is written at the position, and nothing else changes. |
| `InetAddress.DecodedEncoded` | crates/zerotier-protocol/src/inet_address.rs:17-71 | An address is read back from its encoding, whatever follows. |
| `InetAddress.EncodedDecoded` | crates/zerotier-protocol/src/inet_address.rs:17-71 | The bytes read as an address are its encoding. |
| `InetAddress.Layout` | crates/zerotier-protocol/src/inet_address.rs:17-36 | The tag 0, 4 or 6, the address, and the port with its most significant byte first. |
| `IdentityWire.Identity.Serialize` | crates/zerotier-protocol/src/identity_wire.rs:17-24 | 71 bytes: address, type, two public keys, an empty secret. |
| `IdentityWire.DecodedEncoded` | crates/zerotier-protocol/src/identity_wire.rs:17-70 | An identity is read back exactly if its address is not reserved. |
| `IdentityWire.Layout` | crates/zerotier-protocol/src/identity_wire.rs:17-24 | Where an identity carries its address, key type and the two halves of its public key. |
| `IdentityWire.EncodedDecoded` | crates/zerotier-protocol/src/identity_wire.rs:26-70 | What is read is what stands there, and a secret of the given length is skipped. |
| `World.Serialize` | crates/zerotier-protocol/src/world.rs:211-275 | The moving position writes sentinel, preamble, signature, roots, dictionary of a moon, sentinel, and nothing behind. |
| `World.SerializeSignedPortion` | crates/zerotier-protocol/src/world.rs:282-334 | The signed portion is written at the start of the buffer, and nothing behind. |
| `World.SerializedIsSignedPortion` | crates/zerotier-protocol/src/world.rs:211-334 | The two writers, each written out field by field, agree: a world file is the signed portion with the signature inserted at offset 81, between the sentinels. |
| `World.Deserialize` | crates/zerotier-protocol/src/world.rs:79-206 | The reader's loops compute the specified world or error: sentinels, type, at most 4 roots of at most 32 endpoints, a dictionary on moons. |
| `World.RoundTrip` | crates/zerotier-protocol/src/world.rs:79-275 | Reading undoes writing exactly for the worlds with at most 4 roots of at most 32 endpoints, no reserved address, and a dictionary of at most 65,535 bytes on moons and on no others. |
| `World.WorldLayout` | crates/zerotier-protocol/src/world.rs:211-275 | Where a world file carries sentinels, type, ID, timestamp, signing key, signature and number of roots. |
| `World.ReadIsWellFormed` | crates/zerotier-protocol/src/world.rs:79-206 | Everything that can be read is such a world. |
| `World.MoonWithoutDictionary` | crates/zerotier-protocol/src/world.rs:79-275 | A moon without a dictionary is read back with an empty one. |
| `World.VerifySignature` | crates/zerotier-protocol/src/world.rs:344-354 | The key is decoded first, and a world without one is not genuine; then the signature is checked over exactly the signed portion under the second half of the signing key, and a signed portion of more than 4,096 bytes panics. |
| `World.SignedPortionFits` | crates/zerotier-protocol/src/world.rs:344-354 | The signed portion fits the 4096-byte verification buffer for every world that is no moon and every moon with at most 1,292 dictionary bytes. |
| `World.FullestMoonFits` | crates/zerotier-protocol/src/world.rs:344-354 | That bound is exact for a moon with four roots of 32 IPv6 endpoints. |
| `World.FullestMoonOverruns` | crates/zerotier-protocol/src/world.rs:344-354 | Such a moon panics exactly if it has a verifying key and more than 1,292 bytes of dictionary. |
| `Ndp.Icmpv6Checksum` | crates/zerotier-node/src/ndp.rs:42-80 | The 32-bit wrapping accumulator and the carry-fold loop compute the complement of the folded one's-complement sum of pseudo-header and body, for bodies of any length. |
| `Ndp.TotalIsWordSum` | crates/zerotier-node/src/ndp.rs:42-72 | The sum is that of the 16-bit words of the pseudo-header, written out as in section 8.1 of RFC 8200, and the body. |
| `Ndp.FoldCarries` | crates/zerotier-node/src/ndp.rs:74-77 | The fold loop terminates and computes the fold. |
| `Ndp.Fold` | crates/zerotier-node/src/ndp.rs:74-77 | Folding keeps the sum modulo 65,535, and is zero only for zero. |
| `Ndp.SumFits` | crates/zerotier-node/src/ndp.rs:43-72 | The 32-bit sum does not overflow for bodies up to 131,039 bytes. |
| `Ndp.SumOverflows` | crates/zerotier-node/src/ndp.rs:43-72 | For some body of one byte more it does. |
| `Ndp.ChecksumVerifies` | crates/zerotier-node/src/ndp.rs:42-80 | For all addresses and every body of 4 to 131,039 bytes with a zero checksum field, the written checksum makes recomputation zero, and the receiver's check passes (section 2.3 of RFC 4443, section 8.1 of RFC 8200). |
| `Ndp.RecomputesToZero` | crates/zerotier-node/src/ndp.rs:42-80 | For bodies of any length, even when additions wrap: the written checksum makes recomputation exactly zero. |
| `Ndp.AcceptedExactly` | crates/zerotier-node/src/ndp.rs:42-80 | For bodies of any length: the receiver's check passes exactly when the number of carries lost by the 32-bit accumulator is a multiple of 65,535. |
| `Ndp.OnesAreRejected` | crates/zerotier-node/src/ndp.rs:42-80 | A body of 131,042 bytes whose message recomputes to zero and is rejected by the receiver all the same. |
| `Ndp.ZeroIsAccepted` | crates/zerotier-node/src/ndp.rs:42-80 | Recomputing to zero is the same as the one's-complement sum being all ones. |
| `Ndp.BuildNa` | crates/zerotier-node/src/ndp.rs:85-135 | Every neighbour advertisement has the prescribed layout and a checksum its receiver accepts. |
| `Ndp.BuildRa` | crates/zerotier-node/src/ndp.rs:140-193 | Every router advertisement has hop limit 64, a lifetime of 1800 s and no timers, one prefix on link and autonomous, valid for 86,400 s and preferred for 14,400 s, each at its offset, and a checksum its receiver accepts. |
| `Ndp.HandleNdp` | crates/zerotier-node/src/ndp.rs:202-317 | A solicitation is answered exactly when its target is a member's address or a prefix is configured; the answer names the first such member and is accepted by whom it is sent to, all nodes when the asker has no address yet. |
| `Ndp.LookupIpv6` | crates/zerotier-node/src/network.rs:81-88 | The first member with the address, if there is one. |
| `Multicast.MulticastManager.Subscribe` | crates/zerotier-node/src/multicast.rs:51-86 | On the map from group to subscriber to time: one entry set. Group keys stay unique, no group is empty, no address repeats; a new subscriber comes last, the others keep their order. |
| `Multicast.MulticastManager.ReplaceSubscriptions` | crates/zerotier-node/src/multicast.rs:90-114 | On the map: the address's unadvertised groups of the network removed, the advertised ones set. All other subscribers keep their order. |
| `Multicast.RetainedInOrder` | crates/zerotier-node/src/multicast.rs:97-109 | What a removal leaves of a group's subscribers is in the order it was. |
| `Multicast.RetainedSubscribers` | crates/zerotier-node/src/multicast.rs:97-109 | A removal does to every group what it does to the list of its subscribers. |
| `Multicast.MulticastManager.UnsubscribeAll` | crates/zerotier-node/src/multicast.rs:117-123 | The address is in no group afterwards, and everyone else as before and in the same order. |
| `Multicast.MulticastManager.ExpireOld` | crates/zerotier-node/src/multicast.rs:172-178 | Exactly the subscriptions older than the maximum age go; the others keep their order. |
| `Multicast.MulticastManager.GetReplicationTargets` | crates/zerotier-node/src/multicast.rs:127-169 | Up to the limit subscribers, without the sender if one is excluded: as many as there are, none twice, no one else, in the order they are kept in. |
| `Multicast.MulticastManager.BuildMulticastLike` | crates/zerotier-node/src/multicast.rs:191-225 | The advertisement lists exactly the address's groups on the network, each once. |
| `Multicast.ReplacedAt` | crates/zerotier-node/src/multicast.rs:90-114 | What a replacement means for every group and address. |
| `Multicast.RemovedAt` | crates/zerotier-node/src/multicast.rs:97-109 | Exactly the dropped subscriptions are gone. |
| `Multicast.HandleMulticastLike` | crates/zerotier-node/src/vl2.rs:180-208 | Afterwards the sender is in exactly the advertised groups of every network mentioned; unmentioned networks and all other senders are unchanged; an undecodable message changes nothing. |
| `Multicast.LikedAt` | crates/zerotier-node/src/vl2.rs:188-207 | The same for the networks handled so far, one after the other. |
| `Multicast.AdvertisementDelivers` | crates/zerotier-node/src/vl2.rs:180-208 | A receiver of a member's own advertisement sees the member in exactly its groups, unless it has none and the receiver knew some. |
| `Topology.Topology.LoadPlanet` | crates/zerotier-node/src/topology.rs:51-74 | Every root is listed once and gets a new peer with its endpoints. The list stays the union of planet and moons exactly when no root of a replaced planet is lost, so always for the first planet. |
| `Topology.Topology.LoadMoon` | crates/zerotier-node/src/topology.rs:80-104 | A moon not signed with its own key is rejected without effect, and so, by a panic, is one that has a key but is too long to be verified; otherwise its roots join, and the list stays the union without duplicates, every root having a peer. |
| `Topology.Topology.UnloadMoon` | crates/zerotier-node/src/topology.rs:112-133 | The first moon with the ID goes, and with it exactly the roots no other world has; the list stays the union; peers stay. |
| `Topology.Topology.LoadAndUnload` | crates/zerotier-node/src/topology.rs:80-133 | Loading any moon with an unused ID, and unloading it if it was accepted, restores roots, in their order, and moons. |
| `Topology.SecondPlanetLeavesRoots` | crates/zerotier-node/src/topology.rs:51-74 | Two planets with different roots: after the second one the list is no longer the union. |
| `Topology.UnloadUndoesLoad` | crates/zerotier-node/src/topology.rs:80-133 | The root list after loading and unloading is the list before, element by element. |
| `Topology.MergedInOrder` | crates/zerotier-node/src/topology.rs:51-74 | The roots known already stay in front, and new ones follow in the order the world lists them in. |
| `Topology.Topology.AddPeer` | crates/zerotier-node/src/topology.rs:164-169 | A learned identity never replaces a peer, and is no root. |
| `Topology.Topology.GetRoot` | crates/zerotier-node/src/topology.rs:149-154 | The first root's peer. |
| `Topology.Topology.GetRootMut` | crates/zerotier-node/src/topology.rs:157-161 | The same peer as the other lookup, as every root has one. |
| `Topology.RootPeer` | crates/zerotier-node/src/topology.rs:58-70 | A root's peer has a direct path for each of its endpoint addresses, each once, in order. |
| `Peer.Peer.OnHelloSent` | crates/zerotier-node/src/peer.rs:195-229 | The state after sending a HELLO; a stored backoff stays within 1,000 to 30,000 ms. |
| `Peer.Peer.MarkStale` | crates/zerotier-node/src/peer.rs:274-282 | Only an active session becomes stale, to be retried at once with the shortest backoff. |
| `Peer.Peer.AddPath` | crates/zerotier-node/src/peer.rs:158-167 | The path is refreshed if its address is known and appended otherwise; addresses stay distinct, other paths unchanged. |
| `Peer.Peer.PromotePath` | crates/zerotier-node/src/peer.rs:263-271 | Likewise, and the path is direct. |
| `Peer.Peer.BestPath` | crates/zerotier-node/src/peer.rs:150-155 | The first alive path of minimal score, if any is alive; direct whenever an alive direct path has a latency of at most 9,757 ms. |
| `Peer.BackoffDoubles` | crates/zerotier-node/src/peer.rs:195-229 | k consecutive HELLOs from a fresh HelloSent give a backoff of min(1000 * 2^k, 30000) ms. |
| `Peer.BackoffStartsOver` | crates/zerotier-node/src/peer.rs:195-229 | A first contact starts at 1,000 ms and a reconnection at the backoff the stale session was left with, and it doubles likewise. |
| `Peer.ActiveStays` | crates/zerotier-node/src/peer.rs:197-199 | HELLOs to an active session change the time of the last send only. |
| `Peer.RetriesSpread` | crates/zerotier-node/src/peer.rs:170-186 | Retries are due exactly when each comes 1, 2, 4, 8, 16 and from then on 30 seconds after the one before it. |
| `Peer.PingsSpread` | crates/zerotier-node/src/peer.rs:170-174 | In an active session HELLOs are due exactly when each comes a minute after the one before it. |
| `Peer.ChosenIsNoWorse` | crates/zerotier-node/src/path.rs:36-62 | Of alive paths heard from at the same time the one of less latency is chosen, a relay counting for 10,000 ms more; of paths of the same kind and latency the one heard from later, to the second; a path not heard from for 243 s never. |
| `Peer.DirectBeatsRelay` | crates/zerotier-node/src/path.rs:52-62 | A direct path of latency at most 9,757 ms beats every relay path, whatever their ages. |
| `Peer.RelayMayWin` | crates/zerotier-node/src/path.rs:52-62 | At 9,758 ms a relay path may be preferred. |
| `Switch.Route` | crates/zerotier-node/src/switch.rs:34-65 | Direct exactly when the best alive path to a known peer is direct, in particular whatever relay paths exist if a direct one has low latency; otherwise by the first root's best or first path; dropped only without one. |
| `Switch.HandleRelay` | crates/zerotier-node/src/node.rs:1919-1957 | A packet for another node is forwarded with one more hop to where it is routed, or dropped at the hop limit or without a route. |
| `ConfigRequests.ConfigRequester.QueueConfigRequests` | crates/zerotier-node/src/node.rs:2071-2216 | The flagging loop and the asking loop together do to every membership what a round does, and emit exactly the round's actions in order. |
| `ConfigRequests.ConfigRequester.NoteUnknownDestination` | crates/zerotier-node/src/node.rs:2226-2236 | A request becomes pending, and the limit is lifted if the last one is five seconds old. |
| `ConfigRequests.ConfigRequester.ConfigReceived` | crates/zerotier-node/src/node.rs:1661-1685 | The network is no longer pending. |
| `ConfigRequests.ConfigRequester.CredentialsReceived` | crates/zerotier-node/src/node.rs:1822-1844 | The network is no longer pending, and its limit is forgotten. |
| `ConfigRequests.ConfigRequester.JoinNetwork` | crates/zerotier-node/src/node.rs:248-268 | A network is joined at most once. |
| `ConfigRequests.ConfigRequester.JoinByRequest` | crates/zerotier-service/src/api/network.rs:97-118 | Joining a network that is joined already asks for its configuration anew and forgets the limit; any other is joined. |
| `ConfigRequests.RequestsAreLimited` | crates/zerotier-node/src/node.rs:2071-2236 | Over whole runs of one membership with a positive, non-decreasing clock, and no NETWORK_CREDENTIALS and no repeated join in between: any two requests are at least 5,000 ms apart, and at least 30,000 if no unknown destination comes up between them. |
| `ConfigRequests.UnansweredIsRepeated` | crates/zerotier-node/src/node.rs:2071-2216 | Over runs: a request at time t with no unknown destination, configuration or certificate after it is repeated at the next round with a ready controller at t' if and only if t = 0 or t' >= t + 30,000. |
| `ConfigRequests.TimeZeroIsForgotten` | crates/zerotier-node/src/node.rs:2083-2087 | With a clock at zero the limit fails: two requests at once. |
| `ConfigRequests.CredentialsForget` | crates/zerotier-node/src/node.rs:1837-1842 | After NETWORK_CREDENTIALS a request goes out at once exactly if the new certificate is to be refreshed. |
| `ConfigRequests.RejoinForgets` | crates/zerotier-service/src/api/network.rs:105-108 | After a repeated join a request goes out at once exactly if the controller is ready. |
| `ConfigRequests.UnknownIsServed` | crates/zerotier-node/src/node.rs:2226-2236 | After an unknown destination the next round with a ready controller sends exactly if the limit allows it. |
| `ConfigRequests.ConfiguredIsSatisfied` | crates/zerotier-node/src/node.rs:1661-1685 | After a configuration a request goes out exactly if the certificate then held is due and the limit allows it. |
| `ConfigRequests.ControllerIsPrefix` | crates/zerotier-node/src/node.rs:3042-3052 | The address asked is the top forty bits of the network ID. |
| `ConfigRequests.RefreshTimes` | crates/zerotier-node/src/network.rs:146-166 | When a certificate is due, as a bound on the time: a quarter of its lifetime before its end, but at most a minute and at least a second. |
| `ConfigRequests.RoundRequests` | crates/zerotier-node/src/node.rs:2074-2205 | A round requests exactly the networks that are due and whose controller is ready. |
| `ConfigRequests.RoundWhois` | crates/zerotier-node/src/node.rs:2119-2166 | A controller without a session is asked for once a round, and no sooner than ten seconds after the last time. |
| `ConfigRequests.RoundInOrder` | crates/zerotier-node/src/node.rs:2074-2205 | A round's actions are in the order of the memberships, at most one for each. |
| `IpPool.AllocatesFirst` | crates/zerotier-node/src/controller/ip_pool.rs:19-37 | The first unassigned address in pool order is allocated, and none exactly when every one is assigned. |
| `IpPool.TakenContents` | crates/zerotier-node/src/controller/ip_pool.rs:21-24 | The assigned addresses are those the assignments parse to; others are skipped. |
| `IpPool.RangeContents` | crates/zerotier-node/src/controller/ip_pool.rs:27-34 | A pool's addresses are those between its ends, inclusive. |
| `IpPool.RangeCountsUp` | crates/zerotier-node/src/controller/ip_pool.rs:27-34 | They are tried in ascending order, each once. |
| `IpPool.PoolsInOrder` | crates/zerotier-node/src/controller/ip_pool.rs:25-37 | Pools are searched one after the other. |
| `IpPool.ReadsDotted` | crates/zerotier-node/src/controller/ip_pool.rs:40-57 | An assignment is read exactly if what stands before its first slash is four numbers up to 255 between dots. |
| `IpPool.ParseUndoesFormat` | crates/zerotier-node/src/controller/ip_pool.rs:40-57 | Parsing a formatted address, with or without a prefix length, gives the address. |
| `IpPool.AllocationsAreDistinct` | crates/zerotier-node/src/controller/ip_pool.rs:19-57 | Repeated allocation, each address recorded as text, gives distinct free addresses, as many as asked for or as there are. |
| `Pipeline.BuildEncryptedVerbPacket` | crates/zerotier-node/src/vl2.rs:28-51 | The armored packet with the given ID, addresses, verb and payload, hop count zero, suite 1. |
| `Pipeline.PushFragmentedSend` | crates/zerotier-node/src/vl2.rs:73-95 | The queued sends are the packet or its pieces, in order and all to the address; none if it cannot be split. |
| `Pipeline.ArrivedOpens` | crates/zerotier-node/src/vl2.rs:28-51 | A sent packet, whatever its hop count has become, verifies and opens to its ID, addresses, verb and payload. |
| `Pipeline.ArrivedIsAccepted` | crates/zerotier-node/src/node.rs:785-816 | An arrived packet is taken for a packet and opened to the message exactly when the sender's address does not begin with 0xff; otherwise it is taken for a fragment. |
| `Pipeline.RelayPassesOn` | crates/zerotier-node/src/node.rs:812-816 | A node that is not the destination forwards the packet with one more hop, or drops it at the limit. |
| `Pipeline.SentIsDelivered` | crates/zerotier-node/src/node.rs:777-1158 | A sent packet gets through n relays to a receiver that knows the secret exactly if n is at most three and the sender's address does not begin with 0xff. |
| `Pipeline.AcceptedIsHandedOver` | crates/zerotier-node/src/node.rs:818-1158 | What is accepted is acted on: the handlers get the verb and the payload. |
| `Pipeline.PiecesComeToPacket` | crates/zerotier-node/src/node.rs:2039-2068 | At the node that receives the pieces the last one comes to the sent packet exactly if the sender's address does not begin with 0xff. |
| `Pipeline.PayloadArrives` | crates/zerotier-node/src/vl2.rs:28-95 | The whole pipeline, over runs of the receive path: the pieces of a sent packet in any order, repeated and interleaved, come to the packet; after n relays it is delivered exactly if n is at most three and the sender's address does not begin with 0xff, and then the receive path hands verb and payload to the handlers. |
| `Pipeline.LastPieceHandsOver` | crates/zerotier-node/src/node.rs:777-1158 | Without relays in between, the very call that receives the last piece hands verb and payload to the handlers. |
| `Pipeline.ArmoredIsActedOn` | crates/zerotier-node/src/node.rs:818-903 | Under suites 0, 1 and 3 alike: what a known peer armored with the keys it shares with the receiver, in the receiver's order, is verified after any number of relays and acted on, its plain body under its own verb; with the compression bit set, what it decompresses to, and nothing if it does not. |
| `Pipeline.WaitingIsActedOn` | crates/zerotier-node/src/node.rs:559-593 | And so is a packet that waited for its sender's identity, when it is replayed. |
| `Bytes.BigEndianRoundTrip` | crates/zerotier-protocol/src/header.rs:52-54 | A big-endian field reads back as what was written, reduced to its width. |
| `Bytes.FirstCountsMost` | crates/zerotier-protocol/src/header.rs:52-54 | The first byte is the most significant. |

## Left out

- Node.Node.ReceivePacket: packet buffers are passed by value along the receive path; the in-place effects of armor and hop count on a buffer are modelled in `SalsaArmor`, `AesGmacSiv` and `Relay`.
- Node.Node.HandleWhoisAnswer: which identities are genuine, and the HELLO sent to a new peer, are parameters; handlers may change or add peers but are taken to forget none.
- FragmentRuns.FragmentsReassemble: is about runs in which no other event evicts the packet or sweeps it out before it is complete, and all fragments with its ID are its own; the structural invariants are proved without that.
- NetworkConfigRuns.ChunkDictionary: a chunk's packaging into a message and a packet is not modelled.
- ConfigRequests.ConfigRequester.QueueConfigRequests: whether a controller has a path, a session and a key is a parameter of the round, and the request's packet is left to `Pipeline`.
- Switch.HandleRelay: the RENDEZVOUS messages sent after a direct relay are not modelled.
- Peer.Peer.EstablishSession: key agreement and key derivation are outside; the shared secret is an argument.
- Armor under the unmangled key (`salsa.rs` lines 115 to 165), a variant with the same structure.
- Identity generation and its memory-hard hash; the insides of all cryptographic primitives.
- Service event loop, sockets, TUN device, database, REST interface, command line and foreign-language bindings.
- LZ4 decompression, tracing output and dictionary summaries.
- Verb payload formats, certificate signature checks, ARP and Ethernet frame codecs, and MAC derivation.
- The timing of HELLOs in `tick`: heartbeats and reconnects can both send in one call, so the code does not space them.
- Error values of the dictionary and world parsers are modelled; the texts of their messages are not.

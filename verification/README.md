# Super Alice in Dafny

A model of the Super Alice satellite protocol (a C++ UDP protocol) and proofs about it, in
Dafny 4.11. `dfyconfig.toml` names all files of the project.

What is modelled, one module a file:

- `Bytes`, `Bits`: bytes, the little-endian memory image of integer fields, big-endian ports,
  the bits of bytes and 16-bit words.
- `Checksum`, `Order`, `ErrorPatterns`, `Detection`: the CRC-16 of a frame (polynomial 0x8005,
  initial value 0xFFFF, most significant bit first), its algebra, and what damage to a frame
  it notices. The proofs go through the bit-serial register: the byte-wise loop is shown to be
  that register, the register is linear, and the words it misses are exactly the multiples of
  x^16 + x^15 + x^2 + 1 over the two-element field. The order of x is 32767.
- `Packets`: the packet, its frame, encryption at priority 255, serialization and parsing.
- `Fragmentation`, `Pipeline`: splitting, sorting and reassembling, and the whole path from a
  packet through frames delivered in any order, some lost or repeated, back to a packet.
- `Addresses`, `IpTable`: the text "a.b.c.d:port" with `std::to_string`, `std::stoi` and
  `std::getline` spelled out, and the address table with its wire format.
- `Routing`, `Reachability`, `RoutePayload`: the greedy scan, the route search and when it is sure
  to find its destination, the payload of ROUTE packets.
- `Registry`, `Discovery`, `Bootstrap`, `Satellite`, `Handshake`: the tables of the nodes, the
  discovery reply, the two node classes with their packet handlers, and the handshake.
- `Network`: routed packets in flight between satellites as a state machine, with requests,
  losses, copies and deliveries in any order.
- `Constellation`, `Service`: the whole system as one state machine: the tables of the bootstrap
  node and of all satellites, discovery replies on their way, routed packets in flight; and
  histories in which a request is served, from empty tables to its destination.
- `Iteration`: an unordered map is iterated in an order the program does not choose; results
  that depend on it take the order as an input and hold for every order; the route search may
  meet a different order at every hop.
- `Kepler`: the orbital position over the real numbers.

Conventions. Packets, tables and states are values; the address table and the two nodes are
classes whose methods update their fields. A method that follows a loop of the source is
proved equal to a specification function, and the theorems are about those functions. Inputs
the model takes as parameters: clock readings, nonces, the key stream of the cipher as a
function of nonce and position (section 2.4 of RFC 8439), distances between positions, and the
functions of the mathematical library. A distance that is infinite or not a number never
compares as smaller, so it is modelled as one no less than the largest finite double.

## Where the code differs from what is expected of it

- `fragment` keeps the number of fragments in eight bits. The payload comes back exactly when 1
  to 255 fragments are needed; an empty payload, or one that needs a multiple of 256 fragments,
  makes no fragment at all, and reassembly throws (`FragmentsPartition`, `PipelineDelivers`).
- Nothing notices a lost or repeated fragment: reassembly accepts the pieces it has and does not
  complain (`WhatComesBack`). If only losses or only repetitions occur the result is what was
  sent exactly when there are none (`WholeIff`); a loss and a repetition can make up for each
  other (`LossAndRepeatCanCancel`).
- The timestamp of a fragment is the time it is made, and that of the reassembled packet the time
  of reassembly (`FragmentsPartition`, `WhatComesBack`). The equality asserted at
  test/test_packet.cpp:50 holds exactly when both clock readings agree (`PipelineDelivers`).
- A ROUTE payload carries no length. Data of four bytes or more is read as ids, and the data
  reaches the end of the route in a DATA packet exactly when the route has at least two ids and
  the data is shorter than four bytes (`RouteRoundTrip`, `DataArrivesIff`). Longer data prolongs
  the route, and what is left of it ends up at the node its last full word spells
  (`WhereDataEndsUp`).
- The code sends an arrived DATA packet again to the same node if that node's own table holds its
  own address; an encrypted one is encrypted anew (`DataIsEchoedIff`). With honest peers and
  replies that go where they are meant to go this never happens to a node with an id other than 0
  (`ArrivedDataStays`). It does happen once a node is handed a reply meant for another one, as
  after a peer has lied about its address (`MisdeliveredReplyEchoes`).
- When some other peer is out of range the discovery reply ends in zeros, which the satellite
  enters as a peer with id 0 and address "0.0.0.0:0" (`ReplyTeaches`, `ReplyKeepsRightIff`).
  The theorems about the whole system let id 0 lead there.
- test/test_discovery.cpp:53 feeds the satellite a reply in a text format the code does not
  read; the code's 11-byte records are modelled.
- The greedy scan stops at the first peer that is visited or no nearer than the one before. Its
  hop goes to a nearest unvisited peer exactly when the scan gets as far as one (`NearestIff`), and
  does so in every order of iteration only if the positions leave no room for a mistake
  (`AlwaysNearestIff`; three peers where it misses the nearest: `NearestCanBeMissed`).
- A search that gives up still sends its partial route. The search is sure to reach the destination
  exactly when that is the only other peer, or the nearer of the only two, at distances below the
  largest double (`AlwaysReachesIff`); with four or more positions some order of iteration always
  makes it give up. An example is three satellites at equal distances (`SearchCanGiveUp`).
- A duplicated datagram makes a node handle a request twice (`CopyIsHandledTwice`); what is in
  flight is right all the same (`CopyingRunCarries`).
- The packet layout in the repository's README.md lists fields and packet types the code does
  not have; src/packet.cpp is followed.

## Model

| member | source | states |
|---|---|---|
| `Bytes.UnLeOfLe` | src/packet.cpp:25-54 | an integer field is read back from its memory image, for every width and value that fits |
| `Bytes.LeOfUnLe` | src/packet.cpp:75-100 | every byte string is the memory image of the integer read from it |
| `Bytes.LeByte` | src/packet.cpp:25-54 | byte i of an image has weight 256^i |
| `Bytes.ByteOrders` | src/packet.cpp:25-54 | fields are little-endian and ports big-endian, by example |
| `Bits.NarrowOfWiden` | src/packet.cpp:64-65 | widening a byte and cutting it down again gives the byte |
| `Bits.WidenValue` | src/packet.cpp:219-220 | widening a byte, bit by bit in the model, keeps the number it stands for |
| `Bits.WidenOfNarrow` | src/packet.cpp:64-65 | cutting a word down keeps exactly its low byte |
| `Checksum.Crc16` | src/packet.cpp:214-233 | the nested loops compute the specified checksum |
| `Checksum.AbsorbByte` | src/packet.cpp:219-230 | the inner loop is eight steps of the register after the byte is added on top |
| `Checksum.StepOfXor` | src/packet.cpp:222-229 | one turn of the inner loop is linear |
| `Checksum.StepZeroOnly` | src/packet.cpp:222-229 | one turn makes only zero into zero |
| `Checksum.StepNOfXor` | src/packet.cpp:222-229 | any number of steps is linear |
| `Checksum.StepNInjective` | src/packet.cpp:222-229 | any number of steps loses nothing |
| `Checksum.SerialOfFew` | src/packet.cpp:217-231 | feeding up to 16 bits one by one is one exclusive or on the top bits followed by as many steps |
| `Checksum.CrcIsSerial` | src/packet.cpp:214-233 | the byte-wise loop equals the bit-serial register on every buffer |
| `Checksum.CheckValue` | src/packet.cpp:214-233 | the checksum of "123456789" is 0xAEE7, the check value of CRC-16/CMS |
| `Checksum.ReceivedTrailer` | src/packet.cpp:114 | the trailer bytes and the checksum determine each other |
| `Order.OrderOfX` | src/packet.cpp:222-229 | x^d is 1 exactly when 32767 divides d |
| `Order.ReturnTime` | src/packet.cpp:222-229 | a register word x^k comes back after d steps exactly when 32767 divides d |
| `ErrorPatterns.SerialOfDiff` | src/packet.cpp:214-233 | the registers of two bit strings differ by the register of their difference |
| `ErrorPatterns.MissedIffMultiple` | src/packet.cpp:214-233 | an error pattern is missed exactly when it is a polynomial multiple of the generator |
| `ErrorPatterns.BurstIsCaught` | src/packet.cpp:214-233 | no non-zero pattern within 16 consecutive bits is missed |
| `ErrorPatterns.OddIsCaught` | src/packet.cpp:214-233 | no pattern of odd weight is missed |
| `ErrorPatterns.TwoBitsMissed` | src/packet.cpp:214-233 | two flipped bits are missed exactly when a multiple of 32767 apart |
| `ErrorPatterns.ThreeBitsAreCaught` | src/packet.cpp:214-233 | one to three flipped bits among 32767 are never missed |
| `Detection.AcceptedIffZeroResidue` | src/packet.cpp:102-119 | a buffer is accepted exactly when its checksum including the trailer is 0 and an encrypted one has room for the nonce |
| `Detection.RefusedFor` | src/packet.cpp:102-119 | a buffer is refused as ciphertext exactly when it has priority 255 and no room for a nonce, and otherwise for its checksum exactly when the residue is not 0 |
| `Detection.DamagePassesIffMultiple` | src/packet.cpp:114-119 | a damaged frame is accepted exactly when the flipped bits are a multiple of the generator |
| `Detection.BurstIsRejected` | src/packet.cpp:114-119 | damage within 16 consecutive bits is rejected, at any place in a frame of any length |
| `Detection.OddDamageIsRejected` | src/packet.cpp:114-119 | an odd number of flipped bits is rejected, in a frame of any length |
| `Detection.TwoBitDamage` | src/packet.cpp:114-119 | two flipped bits pass exactly when a multiple of 32767 apart |
| `Detection.ThreeBitDamageIsRejected` | src/packet.cpp:114-119 | one to three flipped bits are rejected in frames of up to 4095 bytes |
| `Detection.DamagedFrameIsRejected` | include/alice/peer.hpp:56 | the same for every frame a sender writes that fits the 1024-byte receive buffer |
| `Detection.FourBitDamageCanPass` | src/packet.cpp:114-119 | the limits are sharp: at any position of any accepted frame there are four bits within 17 positions whose flipping is noticed only if it takes away the room for a nonce |
| `Detection.ParityOfChecksum` | src/packet.cpp:214-233 | the checksum has the parity of the buffer, and both together have an even number of ones |
| `Detection.AcceptedIsEven` | src/packet.cpp:102-119 | every accepted buffer has an even number of ones |
| `Packets.CipherRoundTrip` | src/encryption_manager.cpp:21-117 | decryption undoes encryption; a ciphertext is reproduced under its own nonce; anything shorter than a nonce is refused |
| `Packets.XorByteBits` | src/encryption_manager.cpp:50 | the cipher flips exactly the bits where those of the key stream are set |
| `Packets.CiphertextOnWire` | src/packet.cpp:56-61 | at priority 255 the nonce follows the header, and then the payload with those bits flipped |
| `Packets.FrameLayout` | src/packet.cpp:21-68 | where every field stands, that other priorities send the payload in clear, and the checksum of all before it at the end |
| `Packets.Serialize` | src/packet.cpp:21-68 | writes the frame: header, payload or ciphertext, trailer |
| `Packets.Deserialize` | src/packet.cpp:70-123 | returns what the fields at their offsets say, or the error, in the order the code finds it |
| `Packets.FrameRoundTrip` | src/packet.cpp:21-123 | a written frame is accepted and gives back every field and the payload, with the crc field set to the checksum sent |
| `Packets.ParseRoundTrip` | src/packet.cpp:21-123 | writing an accepted buffer again gives it back byte for byte, at priority 255 under the same nonce |
| `Fragmentation.Fragment` | src/packet.cpp:155-172 | the loop makes the specified fragments |
| `Fragmentation.FragmentsPartition` | src/packet.cpp:155-172 | fragments are numbered from 0, stamped with the time they are made, non-empty, no longer than the size, and a prefix of the payload; the whole of it exactly when at most 255 are needed |
| `Fragmentation.JoinedPrefix` | src/packet.cpp:155-172 | the first n fragments carry the first n times the size of the payload's bytes |
| `Fragmentation.SortByIndex` | src/packet.cpp:183-186 | leaves the same fragments in an order by index |
| `Fragmentation.Reassemble` | src/packet.cpp:174-212 | sorts, fails on no fragments, otherwise builds the packet from the sorted order; mismatches are reported and not left out |
| `Fragmentation.MismatchedIff` | src/packet.cpp:188-199 | nothing is complained about exactly when all fragments agree with the first on sequence number and number of fragments, and that number fits in eight bits |
| `Fragmentation.ForeignFragmentIsKept` | src/packet.cpp:188-199 | a fragment of another packet is complained about and built in all the same |
| `Pipeline.AcceptedInAnyOrder` | src/packet.cpp:70-123 | which packets a receiver gets does not depend on the order of delivery |
| `Pipeline.OneSortedOrder` | src/packet.cpp:183-186 | fragments that their indices tell apart have one sorted order |
| `Pipeline.WhatComesBack` | src/packet.cpp:155-212 | whichever frames are delivered, however often and in whatever order: the packet has every field, the pieces delivered in their order and the time of reassembly, and nothing complains; with none delivered reassembly fails |
| `Pipeline.WholeIff` | src/packet.cpp:174-212 | those pieces are what was sent exactly when nothing is lost, if nothing is repeated, and exactly when nothing is repeated, if nothing is lost |
| `Pipeline.LossAndRepeatCanCancel` | src/packet.cpp:174-212 | of two equal pieces one can be lost and the other repeated, and the payload is the same |
| `Pipeline.PipelineDelivers` | src/packet.cpp:155-212 | with nothing lost or repeated every field comes back, the payload exactly when 1 to 255 fragments are needed, the timestamp exactly when the clock reads the same; reassembly fails exactly when the number of fragments is a multiple of 256, none included |
| `Addresses.BuildIp` | src/peer.cpp:29-41 | prints the bytes in decimal with dots between them |
| `Addresses.ConvertIpToVector` | src/peer.cpp:42-52 | splits at dots and converts each part, failing where `std::stoi` throws |
| `Addresses.ConvertIpPortToIpVector` | src/peer.cpp:53-60 | the same for the text before the colon |
| `Addresses.ConvertIpPortVectorToIpPortString` | src/peer.cpp:61-66 | prints address bytes and a port in network order |
| `Addresses.PrintedAddress` | src/peer.cpp:61-66 | the bytes of "127.0.0.1:8080" |
| `Addresses.NoLeadingZero` | src/peer.cpp:34 | numbers are printed without leading zeros |
| `Addresses.DecimalOfDigits` | src/peer.cpp:34 | digits without a leading zero are what is printed for their value |
| `Addresses.DigitsOfConcat` | src/peer.cpp:49 | digits have decimal weights |
| `Addresses.StoiReads` | src/peer.cpp:49 | `std::stoi` on every text: white space, a sign, digits, and a rest that does not matter; it throws without digits or beyond 32 bits |
| `Addresses.SpacesByExample` | src/peer.cpp:49 | which characters count as white space |
| `Addresses.OctetCutsDown` | src/peer.cpp:42-52 | numbers are cut down to a byte, and an empty part fails |
| `Addresses.PortOfText` | src/peer.cpp:21-28 | the port is what follows the first colon up to a line end, or the whole text without a colon |
| `Addresses.StoiOfDecimal` | src/peer.cpp:49 | a printed number up to 2^31 - 1 is read back |
| `Addresses.OctetsOfDotted` | src/peer.cpp:29-52 | reading a dotted address gives back its bytes, for any number of bytes |
| `Addresses.AddressRoundTrip` | src/peer.cpp:21-66 | every printed address gives back its bytes and its port |
| `Addresses.QuadsArePrinted` | src/peer_bootstrap_node.cpp:102-106 | the texts taken for addresses are exactly the printed ones |
| `Addresses.AddressTextInjective` | src/peer.cpp:61-66 | no two addresses are printed alike |
| `Addresses.SatellitePrintsAlike` | src/peer_satellite_node.cpp:283-285 | the satellite's own printing gives the same text |
| `IpTable.DeviceIPTable.UpdateIp` | src/device_meta/device_ip_table.cpp:11-14 | sets one entry |
| `IpTable.DeviceIPTable.GetIp` | src/device_meta/device_ip_table.cpp:76-84 | the entry, or nothing where the code throws |
| `IpTable.DeviceIPTable.RemoveIp` | src/device_meta/device_ip_table.cpp:86-89 | removes one entry |
| `IpTable.DeviceIPTable.Serialize` | src/device_meta/device_ip_table.cpp:15-30 | the records of all entries, for every order of iteration |
| `IpTable.DeviceIPTable.Deserialize` | src/device_meta/device_ip_table.cpp:32-70 | reads records until the end or the first bad one, keeping what it read |
| `IpTable.FirstAt` | src/device_meta/device_ip_table.cpp:32-70 | which error each bad record is |
| `IpTable.RecordByExample` | src/device_meta/device_ip_table.cpp:15-30 | the bytes of one record |
| `IpTable.LoadReadsRecords` | src/device_meta/device_ip_table.cpp:32-70 | every byte string is valid records followed by nothing or a bad record, and exactly those records override the table |
| `IpTable.LoadAcceptsIff` | src/device_meta/device_ip_table.cpp:32-70 | accepted are exactly the concatenations of valid records |
| `IpTable.TableRoundTrip` | src/device_meta/device_ip_table.cpp:15-70 | a table written in any order is read back over the old one exactly when every address has a colon |
| `Routing.NextHopIsNew` | src/peer_bootstrap_node.cpp:128-149 | a next hop is a known peer, neither the source nor visited |
| `Routing.OneHop` | src/peer_bootstrap_node.cpp:137-149 | for a given order the scan has one outcome |
| `Routing.RouteReachesOrStops` | src/peer_bootstrap_node.cpp:185-201 | a route holds the destination as its last id or not at all, and then it ends where no hop was found |
| `Reachability.AlwaysReachesIff` | src/peer_bootstrap_node.cpp:183-201 | the search reaches its destination for every order of iteration, the same at every hop or not, exactly when the destination is near enough and the only other peer or the nearer of the only two; never with four or more positions |
| `Reachability.OnlyChoiceIsRoute` | src/peer_bootstrap_node.cpp:183-201 | it then gets there in one hop |
| `Reachability.GivesUp` | src/peer_bootstrap_node.cpp:185-201 | otherwise there are an order and a route in that order without the destination |
| `Reachability.SearchCanGiveUp` | src/peer_bootstrap_node.cpp:185-201 | such a table: three satellites at equal distances |
| `Reachability.NearestIff` | src/peer_bootstrap_node.cpp:128-149 | for every order, a hop goes to a nearest unvisited peer exactly when all peers scanned up to some nearest one are unvisited and each nearer than the one before |
| `Reachability.AlwaysNearestIff` | src/peer_bootstrap_node.cpp:128-149 | it does so for all orders exactly when every peer that could be taken by mistake is farther than all others and none of them is visited |
| `Reachability.NearestCanBeMissed` | src/peer_bootstrap_node.cpp:128-149 | peers at distances 2, 3 and 1, scanned in this order: the first is taken |
| `RoutePayload.SerializeRoutePacket` | src/peer_satellite_node.cpp:69-84 | writes ids and data |
| `RoutePayload.DeserializeRoutePayload` | src/peer_satellite_node.cpp:47-67 | reads full words as ids, the rest as data |
| `RoutePayload.RewriteRoute` | src/peer_satellite_node.cpp:47-84 | reading and writing again loses nothing, whatever the bytes |
| `RoutePayload.ReadRoute` | src/peer_satellite_node.cpp:47-84 | full words of the data come back as ids |
| `RoutePayload.RouteRoundTrip` | src/peer_satellite_node.cpp:47-84 | route and data come back exactly when the data is under four bytes |
| `RoutePayload.ForwardDropsOneWord` | src/peer_satellite_node.cpp:253-256 | a hop sends on its input without the first four bytes |
| `Registry.OthersChangeNothing` | src/peer_bootstrap_node.cpp:152-273 | packets other than HANDSHAKE and KEEP_ALIVE change no table |
| `Registry.MessageOnWire` | src/peer_satellite_node.cpp:239-264 | where a node's own packets have their fields, with priority 1 and no fragment numbers |
| `Registry.PostedIff` | src/peer_bootstrap_node.cpp:95-118 | a frame goes out to where the destination's text points, if there is such a text and place, and otherwise none does |
| `Registry.ResolveIff` | src/peer_bootstrap_node.cpp:102-106 | a text names an endpoint exactly when it is a printed IPv4 address, a colon and a number, cut down to 16 bits |
| `Registry.RunStaysConsistent` | src/peer_bootstrap_node.cpp:219-261 | after every run of frames the address and type tables have the same ids, all with positions, and every address is printed text |
| `Registry.StoredAddress` | src/peer_bootstrap_node.cpp:44-46 | a stored address reads back as four bytes and a port |
| `Registry.ResolveAddress` | src/peer_bootstrap_node.cpp:100-106 | a printed address resolves to its own address and port |
| `Registry.SendData` | src/peer_bootstrap_node.cpp:95-118 | one datagram to the destination's address, or none if it is unknown, no address or has no port (the satellite's src/peer_satellite_node.cpp:86-109 is the same) |
| `Discovery.ReplyTeaches` | src/peer_satellite_node.cpp:278-287 | after a reply the satellite agrees with the bootstrap on every other peer in range and is unchanged on all others, id 0 being overwritten when the reply is padded |
| `Discovery.ReplyExistsIff` | src/peer_bootstrap_node.cpp:24-60 | a reply exists exactly when the requester has a position and every peer in range is registered; its length is fixed |
| `Discovery.ReplyLayout` | src/peer_bootstrap_node.cpp:24-60 | the rows of the peers in range stand in the order of iteration, zeros after them |
| `Discovery.RowIs` | src/peer_bootstrap_node.cpp:44-53 | the eleven bytes for a peer with a given address |
| `Discovery.InRangeIff` | src/peer_bootstrap_node.cpp:26-42 | in range are other peers at most 1000000 away |
| `Discovery.LearnRow` | src/peer_satellite_node.cpp:280-287 | a record written by the bootstrap is read as the same id, type and address text |
| `Bootstrap.PeerBootstrapNode.GreedyForwarding` | src/peer_bootstrap_node.cpp:120-150 | for every order of iteration, the last peer of the longest leading run of unvisited, ever nearer peers in that order, or the sentinel; fails only without a position |
| `Bootstrap.PeerBootstrapNode.FindRoute` | src/peer_bootstrap_node.cpp:185-201 | terminates; the route starts at the source, repeats nothing, follows greedy hops and ends at the destination or a dead end |
| `Bootstrap.PeerBootstrapNode.SerializeIpTable` | src/peer_bootstrap_node.cpp:24-60 | for every order of iteration, fills the buffer with the records in range in that order and never writes outside it |
| `Bootstrap.PeerBootstrapNode.MakeEntry` | src/peer_bootstrap_node.cpp:44-53 | the eleven bytes of one record |
| `Bootstrap.PeerBootstrapNode.ReceiveData` | src/peer_bootstrap_node.cpp:152-273 | the tables change as the registry says and stay consistent; what is sent is an answer to the packet |
| `Bootstrap.HandshakeIsAnsweredIff` | src/peer_bootstrap_node.cpp:219-244 | a peer that has registered is sent one reply, with sequence number 255 and payload type 1, unless an unregistered peer is in range |
| `Bootstrap.DiscoveryIsAnsweredIff` | src/peer_bootstrap_node.cpp:152-182 | a request for neighbours is answered exactly when the requester is registered, there are other peers, and those in range are registered |
| `Bootstrap.RouteIsAnsweredIff` | src/peer_bootstrap_node.cpp:183-212 | a request for a route is answered in the node's own name with the route and the request's payload, exactly when the requester has an address and the search can start; nothing else is answered |
| `Satellite.PeerSatelliteNode.LearnPeers` | src/peer_satellite_node.cpp:278-305 | applies every record of a reply in turn and sends what is sent after each |
| `Satellite.PeerSatelliteNode.PullEdge` | src/peer_satellite_node.cpp:289-304 | a PULL packet with the node's own address, for an edge device only |
| `Satellite.PeerSatelliteNode.LearnRecord` | src/peer_satellite_node.cpp:280-287 | enters one record |
| `Satellite.PeerSatelliteNode.ForwardRoute` | src/peer_satellite_node.cpp:215-270 | drops its own id and sends DATA, ROUTE or nothing |
| `Satellite.PeerSatelliteNode.ReceiveData` | src/peer_satellite_node.cpp:188-319 | what is sent and learned for each kind of packet |
| `Satellite.ForwardedRoute` | src/peer_satellite_node.cpp:219-268 | what a node sends on, for every route and data |
| `Satellite.ForwardsInOwnName` | src/peer_satellite_node.cpp:215-270 | what is forwarded goes to the second id, names the node as its source, has priority 1, sequence 0 and the present time, and carries the input without its first word, or the data alone |
| `Satellite.DataIsSentOn` | src/peer_satellite_node.cpp:209-214 | a DATA packet is sent on as it is |
| `Satellite.OthersAreIgnored` | src/peer_satellite_node.cpp:188-319 | other packets send nothing, and only discovery replies are learned from |
| `Satellite.EdgesAreAsked` | src/peer_satellite_node.cpp:278-305 | a reply makes the satellite send one PULL packet to every edge device in range, where the bootstrap says it listens, and to nobody else |
| `Satellite.DataArrivesIff` | src/peer_satellite_node.cpp:215-269 | a route of k hops delivers its data in a DATA packet after exactly k hops if and only if k is at least 1 and the data is under four bytes |
| `Satellite.WhereDataEndsUp` | src/peer_satellite_node.cpp:215-269 | for any data: its full words prolong the route, all of it is visited, and what is left arrives in a DATA packet at the last id; then nothing is sent on |
| `Satellite.DataIsEchoedIff` | src/peer_satellite_node.cpp:209-214 | an arrived DATA packet is sent again exactly when the node's table has its own address; bit for bit unless it is encrypted under another nonce |
| `Network.NodeKeepsTrack` | src/peer_satellite_node.cpp:215-269 | the node whose turn it is sends at most one packet, which is on track again |
| `Network.StepKeepsTrack` | src/peer_bootstrap_node.cpp:183-212 | requests with any data, losses and deliveries all keep the invariant of routed packets |
| `Network.RoutedRunIsSafe` | src/peer_satellite_node.cpp:215-269 | in every state of every run, whatever the data: nodes handle a request in the order of its route prolonged by the full words of its data, none twice unless an id is on it twice, as it never is with under four bytes; a ROUTE packet is addressed to the first of the ids left in it, a DATA packet carries what is left of the data to the end, and either names the node that sent it |
| `Network.CopyingRunCarries` | src/peer_satellite_node.cpp:215-269 | even if datagrams are duplicated, every packet in flight carries a last part of that route, to the first id of it, or what is left of the data to the end |
| `Network.CopyIsHandledTwice` | src/peer_satellite_node.cpp:215-269 | if a ROUTE packet in flight is duplicated and both arrive, the node handles the request twice |
| `Network.RouteIsCarried` | src/peer_satellite_node.cpp:215-269 | from any turn, deliveries alone bring the data to the end in exactly as many steps as hops are left |
| `Network.RequestIsCarried` | src/peer_bootstrap_node.cpp:183-212 | an answered request of k hops, full words of its data counted, has what is left of its data at the end after exactly k deliveries |
| `Constellation.ReplyIsTruthful` | src/peer_bootstrap_node.cpp:221-243 | a discovery reply made from right tables can be read, goes to its requester, leaves every satellite's addresses right and tells its requester nothing about itself |
| `Constellation.NextKeepsSound` | src/peer_bootstrap_node.cpp:152-273 | every step of the whole system keeps its invariant: consistent and right tables, truthful replies, routed packets on track |
| `Constellation.HistoryIsSafe` | src/peer_bootstrap_node.cpp:152-273 | from empty tables on, in every state of every history: consistent registry, every address a satellite holds is where its id leads and none is its own, replies are readable, routed packets carry what they should even if duplicated, and are safe if they are not |
| `Constellation.ArrivedDataStays` | src/peer_satellite_node.cpp:209-214 | in such a history no arrived DATA packet is sent again by a node with an id other than 0 |
| `Constellation.MisdeliveredReplyEchoes` | src/peer_satellite_node.cpp:209-214 | a node that is handed the reply meant for another one in range sends every arrived DATA packet again |
| `Constellation.RequestIsServed` | src/peer_bootstrap_node.cpp:183-212 | when the bootstrap has the requester's address and each satellite on the route has heard of the next, the history can go on with exactly k deliveries that bring the data to the end |
| `Service.ArrivesAsAskedIff` | src/peer_bootstrap_node.cpp:183-212 | that end is the destination asked for, whatever the order of iteration, exactly when the destination is the only choice |
| `Service.OnlyChoiceIsServed` | src/peer_bootstrap_node.cpp:183-212 | if it is, and the requester has heard of it, one delivery brings the data there |
| `Service.TwoSatellites` | src/peer_bootstrap_node.cpp:152-273 | for two honest satellites in range there is a history from empty tables, by way of handshakes and discovery, in which data of the first arrives at the second |
| `Network.RunKeepsRight` | src/peer_bootstrap_node.cpp:219-251 | if handshakes are truthful, every address the bootstrap holds after any run is right |
| `Network.ReplyKeepsRightIff` | src/peer_satellite_node.cpp:278-287 | a reply leaves the satellite's addresses right if and only if it is not padded or id 0 lives where zeros point |
| `Handshake.MakePayload` | src/peer.cpp:71-81 | the 31 bytes of a handshake, or nothing where the host address does not convert |
| `Handshake.HandshakeRegisters` | src/peer_bootstrap_node.cpp:219-244 | an encrypted handshake frame enters exactly the sender's address text, type and position |
| `Handshake.HandshakeOnWire` | src/peer.cpp:67-89 | the 73 bytes of a handshake frame: type 0, priority 255, to id 12345, and the encrypted address, port, type and position |
| `Handshake.KeepAliveMoves` | src/peer_bootstrap_node.cpp:252-258 | a KEEP_ALIVE frame enters the new position of its sender and nothing else |
| `Handshake.MovedPeerInRange` | src/peer_bootstrap_node.cpp:26-42 | from then on the new distance decides who is in range of whom |
| `Handshake.MovedPeerIsLearned` | src/peer_bootstrap_node.cpp:24-60 | a requester that gets a reply learns of the moved peer exactly when the new distance is in range |
| `Handshake.HandshakeReachesPeers` | src/peer_satellite_node.cpp:278-287 | a peer in range that asks afterwards learns a text that resolves to the sender's address and port |
| `Kepler.CalculatePosition` | src/device_meta/eci_position_calculator.cpp:12-42 | ten rounds of the iteration, then the position for the result |
| `Kepler.IterateIsClose` | src/device_meta/eci_position_calculator.cpp:19-23 | after n rounds the iterate is within e^(n+1) of any solution of Kepler's equation |
| `Kepler.ResidualIsSmall` | src/device_meta/eci_position_calculator.cpp:19-23 | whether there is a solution or not, the iterate after n rounds satisfies the equation up to e^(n+1) |
| `Kepler.RadiusIsClose` | src/device_meta/eci_position_calculator.cpp:19-28 | the radius after n rounds is within a e^(n+2) of the radius at any solution |
| `Kepler.CalculatedRadiusIsClose` | src/device_meta/eci_position_calculator.cpp:12-42 | the returned position lies at a distance from the centre within a e^12 of the exact one |
| `Kepler.RootIsUnique` | src/device_meta/eci_position_calculator.cpp:19-23 | that equation has at most one solution |
| `Kepler.RotateKeepsLength` | src/device_meta/eci_position_calculator.cpp:32-39 | the rotation keeps the distance from the centre |
| `Kepler.RotateInTurns` | src/device_meta/eci_position_calculator.cpp:32-39 | the rotation is three turns, by argument of perigee, inclination and node |
| `Kepler.QuarterTurns` | src/device_meta/eci_position_calculator.cpp:32-39 | which way each of them turns |
| `Kepler.PositionOnEllipse` | src/device_meta/eci_position_calculator.cpp:25-39 | the position is the point a (cos E - e), a sqrt(1 - e^2) sin E of the ellipse, turned into space |
| `Kepler.MeanMotion` | src/device_meta/eci_position_calculator.cpp:14-17 | the mean anomaly grows by n per unit of time with n^2 a^3 = 398600441800000 |
| `Kepler.OrbitStaysBounded` | src/device_meta/eci_position_calculator.cpp:25-39 | at every time the position lies at the computed radius, between perigee and apogee |

## Left out

- Sockets, asio callbacks, threads, sleeps, logging and `main` functions: sending is a datagram returned by a method, receiving is a method call on a frame.
- `asio::ip::make_address`: taken to accept, of a text without a colon, exactly four decimal numbers under 256 without leading zeros and with dots between them.
- OpenSSL: the cipher is an exclusive or with an uninterpreted key stream; failures of the library and secrecy are not modelled.
- Memory errors of the source: frames under 30 bytes, HANDSHAKE payloads under 31 and KEEP_ALIVE payloads under 24 bytes, discovery payloads that are not whole records, and the copies with the size of a vector object at src/peer.cpp:74 and src/peer_satellite_node.cpp:295 are excluded by preconditions or modelled as copying four bytes.
- `Packet::reserved`: never set and not on the wire.
- Satellite.PeerSatelliteNode.LearnPeers: the node's own address must be one, as the open socket at src/peer_satellite_node.cpp:14 makes sure.
- Handshake.MakePayload: the source copies the bytes of a vector object, 24 as a rule, of which the fields written afterwards leave four; what memory holds after fewer than four numbers is a parameter.
- Fragmentation.SortByIndex: `std::sort` is modelled by its result, an order by index of the same fragments, whatever it does with equal indices.
- Network.RoutedRunIsSafe: datagrams may be lost or delayed but not duplicated (`CopyIsHandledTwice`); what holds with duplicates is `CopyingRunCarries`.
- Constellation.HistoryIsSafe: peers are honest about where they listen, and id 0 leads to where zeros point, so no real node has it; datagrams go where they are sent. The PULL packets of `EdgesAreAsked` are not followed further.
- Constellation.ArrivedDataStays: says nothing of a node with id 0, which padding tells about its own id.
- Kepler.CalculatePosition: real arithmetic, so rounding is not modelled, nor the infinity the source computes when the semi-major axis is 0.
- Positions in the codecs are uninterpreted eight-byte values; time stamps in the position table are not modelled.
- Discovery replies larger than the 1024-byte receive buffer: the frame is assumed to fit.
- `DeviceTypeTable`, and `PositionTable` beyond update and lookup: their codecs, closest scan and expiry loop.
- Edge nodes (src/peer_edge_node.cpp): they register like any peer, so the search may route through them, but they do not handle ROUTE packets. The nodes that deliver in `Network` and `Constellation` are satellites; a packet sent to an edge node counts as lost. Their sensor readings are not modelled.
- Position notification: timers only.
- The machine-learning routing, acknowledgements and load balancing of the repository's README.md: not in the code.

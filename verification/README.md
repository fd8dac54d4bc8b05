# Verified core of the DIAN XIN client

This project models four parts of the repository in Dafny and proves what they are for.

* **The STUN/TURN codec** (`platform/dianxin/ns_turn_msg.c`, `ns_turn_msg_addr.c`,
  `ns_turn_ioaddr.c`, `ns_turn_msg_defs.h`). The builder stores attributes into the caller's
  buffer, the parser walks the same octets. Both are tied to one abstraction: a message *is* a list of
  attributes (`StunWire.IsMessage`), and the list is unique. On top of that come
  MESSAGE-INTEGRITY and FINGERPRINT, the CRC-32 behind the latter, XORed addresses and the
  private/public address table, error and challenge responses, SASLprep, address hashes, and
  the splitting of a byte stream into commands and ChannelData. The formats are those of
  sections 6, 15.2, 15.4 and 15.5 of RFC 5389 and sections 11.4 and 11.5 of RFC 5766; the
  octet table of SASLprep restricts RFC 4013 to single octets.
* **The intrusive circular list** (`platform/dianxin/linux_list.h`). A list is a ring of nodes
  in the heap; every operation refines an operation on the sequence of its entries.
* **The tab strip of the property sheet** (`gui/my_propsheet.c`). A singly linked list with two
  cursors and a pixel budget: an invariant over every run of messages, least scrolling, and
  layouts that do not overflow.
* **The 7-bit length code** (`platform/dianxin/codelength.h`).

## How it is organised

Code that writes memory is a method on an array or on a class with the source's fields
(`StunBuffer`, `AddrMap`, `ListHead`, `Page`, `PropSheet`). Each of these methods is proved
against a specification function on sequences, and the main results are lemmas about those
functions or invariants that the methods keep. An octet is a number below 256 (`Octets.byte`);
16- and 32-bit arithmetic is written out where it can wrap or truncate, and registers that the
source shifts and XORs are bit-vectors.

| file | subject |
|---|---|
| `collections.dfy`, `octets.dfy` | options, sequences without repetition; octets, network order, C strings |
| `stun_defs.dfy`, `stun_wire.dfy`, `stun_buffer.dfy`, `stun_classify.dfy` | types, the attribute walk, the builder, the recognisers |
| `crc32.dfy`, `stun_security.dfy` | the checksum, integrity and fingerprint |
| `stun_errors.dfy`, `stun_framing.dfy` | error and challenge responses, ChannelData and streams |
| `io_addr.dfy`, `addr_hash.dfy`, `stun_addr.dfy` | addresses, their table and hashes, address attributes |
| `sasl_prep.dfy`, `code_length.dfy`, `linux_list.dfy`, `prop_sheet.dfy` | the remaining parts |

The keyed hash is a parameter: any function from hash type, secret and data to a code of the
right length, or a failure. The source bounds its attribute walk by the length in the header
and not by the length of the buffer, so the search, the checks and the parsers are stated over
the memory `m` and the number `len` of octets that are the message; what is built is accepted
in any memory that starts with it, with nothing behind it required. The random transaction id
is a parameter. What an uninitialised local or the memory behind a message holds is a parameter
too, so the results hold whatever it is.

## Where the code falls short

Each of these is a lemma with the exact condition or a concrete input.

* A ChannelData message on channel 0x4745 with length 0x5420 spells `GET ` and meets the HTTP
  branch of the splitter first. `ChannelSplitsExactly` says when the split is right, and
  `GetChannelIsMisread` shows a 21540-octet message cut after 12 octets.
* An error code of 25600 or more does not survive, because its hundreds are stored in one octet
  (`ErrorRoundTrip`, in both directions).
* An address survives the private/public table exactly when its entries lead back
  (`MapRoundTrip`). Two private addresses behind one public address do not
  (`SharedPublicMisleads`); `DistinctMapsBack` gives the condition on the table as a whole, and
  `AddedDistinct` says which additions keep it.
* `stun_init_channel_message_str` checks the length before padding. Its total stays within the
  largest message, 65507 octets and the size of the repository's own buffer, exactly when it is
  not asked to pad a length of 65501 or more (`TotalFits`); at 65501 the total is 65508
  (`PaddedTotalOverruns`).
* When even the active tab alone is wider than the head, `update_propsheet` ends with no first
  page at all (`NothingFits`, in both directions); tab widths are capped so that no run of a
  sheet that never shrinks gets there.
* The compact layout never overflows the head, but cutting the last tab may leave it a negative
  width. `CompactBounds` says exactly when, in terms of the natural widths and the head,
  `CompactCanGoNegative` is an input, and head_width then misses the cut tab
  (`RecalcTabWidths`).

## Model

| member | source | states |
|---|---|---|
| StunDefs.MethodRoundTrip | platform/dianxin/ns_turn_msg.c:110-123 | Splitting a 12-bit method around the class bits and joining it again gives the method, for each class |
| StunDefs.TypeLayout | platform/dianxin/ns_turn_msg.c:285-299 | Where the method and class bits of each made type stand, bit by bit, as in section 6 of RFC 5389 |
| StunDefs.TypeOctetsOrder | platform/dianxin/ns_turn_msg.c:310-311 | The type is stored most significant octet first |
| StunDefs.ClassRoundTrip | platform/dianxin/ns_turn_msg_defs.h:46-54 | A type made for a class is recognised as that class and no other |
| StunDefs.ClassesPartition | platform/dianxin/ns_turn_msg_defs.h:46-49 | Every type has exactly one of the four classes |
| StunDefs.TypeIsNoChannel | platform/dianxin/ns_turn_msg_defs.h:127 | The 14-bit type field of a command is never in the channel range |
| Octets.NetworkOrder | platform/dianxin/ns_turn_msg.c:1013-1017 | The 16- and 32-bit fields hold the most significant octet first |
| StunWire.WalkStaysInside | platform/dianxin/ns_turn_msg.c:956-992 | In any memory that holds the padded declared message the walk is 4-aligned, advances by at least 4, keeps each attribute header in front of the padded end, and ends after at most a quarter as many steps |
| StunWire.WalkCovers | platform/dianxin/ns_turn_msg.c:969-992 | The walk leaves nothing out: each offset is the multiple of four that ends the attribute before, and the last attribute reaches the declared end |
| StunWire.CommandExactly | platform/dianxin/ns_turn_msg.c:136-154 | A buffer is a command message if and only if its first octet is below 64, octets 4 to 7 are 21 12 A4 42, and its length is a multiple of four and the declared one |
| StunWire.CommandReadable | platform/dianxin/ns_turn_msg.c:136-154 | An accepted command message is its own padded end, so every attribute header that is visited lies inside it |
| StunWire.BufferReadable | platform/dianxin/ns_turn_msg.c:978-992 | A buffer of 65507 octets holds what the walk can reach if and only if the header length is at most 65484 |
| StunWire.NextAttr | platform/dianxin/ns_turn_msg.c:978-992 | A next attribute is at least 4 octets further on, still aligned and before the declared end, on every buffer |
| StunWire.FindIn | platform/dianxin/ns_turn_msg.c:956-967 | What the search finds is an attribute position with the wanted type, for any header in a memory that holds what it declares |
| StunWire.FindPrefix | platform/dianxin/ns_turn_msg.c:956-967 | The search of a message gives the same answer in any memory that starts with it |
| StunWire.ListUnique | platform/dianxin/ns_turn_msg.c:969-992 | The octets of a message determine its attribute list, whatever the padding holds |
| StunWire.WalkRefinesList | platform/dianxin/ns_turn_msg.c:969-992 | The get_first/get_next walk of a message yields exactly its (type, length, value) triples, in order |
| StunWire.FindListed | platform/dianxin/ns_turn_msg.c:956-967 | Search by type returns the first listed attribute of the type, at its offset, with its value |
| StunWire.FindAbsent | platform/dianxin/ns_turn_msg.c:956-967 | Search by type finds nothing when no listed attribute has the type |
| StunWire.FreshMessage | platform/dianxin/ns_turn_msg.c:303-324 | An initialised buffer is a message with the empty list |
| StunWire.HeaderOctets | platform/dianxin/ns_turn_msg.c:303-324 | The octets of a fresh header: type, zero length, 21 12 A4 42, transaction id |
| StunWire.AppendedIsMessage | platform/dianxin/ns_turn_msg.c:994-1021 | An add with room extends the list by exactly that attribute and keeps header length equal to total minus 20, a multiple of 4 |
| StunWire.AddAllIsMessage | platform/dianxin/ns_turn_msg.c:994-1021 | After any sequence of adds the message lists exactly the accepted ones in order; all earlier octets but the header length are as they were |
| StunWire.ExtendsPrefix | platform/dianxin/ns_turn_msg.c:102-106 | Setting the header length of a grown message back gives the octets of the message it grew from |
| StunBuffers.StunBuffer.InitCommand | platform/dianxin/ns_turn_msg.c:303-324 | The in-place initialiser writes the header for type, cookie and transaction id and nothing behind it |
| StunBuffers.StunBuffer.Init | platform/dianxin/ns_turn_msg.c:326-339 | The four class initialisers: the header of the class, with the request's id when one is given |
| StunBuffers.StunBuffer.AddStr | platform/dianxin/ns_turn_msg.c:994-1021 | On any buffer and header: refused adds change neither buffer nor length; accepted ones write header length, attribute header and value and no other octet, padding included |
| StunBuffers.StrAddedStores | platform/dianxin/ns_turn_msg.c:994-1021 | For any header: the attribute stands at the declared end, the header length is that of the padded total, every other octet stays; refused if and only if the total would pass 65504 |
| StunBuffers.StrAddedIsAppended | platform/dianxin/ns_turn_msg.c:994-1021 | On a consistent message that is the abstract append with whatever padding the memory held, refused exactly without room |
| StunBuffers.StunBuffer.GetFirstByType | platform/dianxin/ns_turn_msg.c:956-967 | The search loop computes the specified first position, for any header, aligned or not, before or behind the length |
| StunBuffers.WrittenIsAppended | platform/dianxin/ns_turn_msg.c:1009-1018 | The written memory starts with the extended message and is unchanged behind it |
| StunClassify.FreshRecognised | platform/dianxin/ns_turn_msg.c:285-299 | A fresh message of a class and method is a command, of that class only, with that method and id, and no channel message |
| StunClassify.ChannelExactly | platform/dianxin/ns_turn_msg.c:130-132 | A buffer is a channel message if and only if it has four octets and the first is from 64 to 127 |
| StunClassify.ClassExactly | platform/dianxin/ns_turn_msg.c:205-217 | The class of any buffer in terms of two bits of its first octets; one shorter than two octets reads as an error response |
| StunClassify.MethodExactly | platform/dianxin/ns_turn_msg.c:116-123 | The method of any buffer in terms of the bits of its first two octets |
| StunClassify.ExtendsRecognised | platform/dianxin/ns_turn_msg.c:116-154 | Growing a message never changes what the recognisers say |
| StunClassify.BuiltRecognised | platform/dianxin/ns_turn_msg.c:205-346 | After any run of the builder exactly the chosen class, method and transaction id are recognised, and never a channel message |
| Crc32.MakeCrcTable | platform/dianxin/ns_turn_msg.c:1223-1238 | The generator loop fills each entry with eight bit steps of its index |
| Crc32.TableIsGenerated | platform/dianxin/ns_turn_msg.c:1150-1215 | All 256 constants of the source equal what the generator computes |
| Crc32.ByteStepLinear | platform/dianxin/ns_turn_msg.c:1219-1237 | Eight bit steps are linear over XOR |
| Crc32.UpdateIsStep | platform/dianxin/ns_turn_msg.c:1148 | One table look-up equals feeding one octet bit by bit |
| Crc32.NsCrc32 | platform/dianxin/ns_turn_msg.c:1241-1246 | The table loop equals the bit-at-a-time reflected CRC on every octet sequence |
| Crc32.CheckValue | platform/dianxin/ns_turn_msg.c:1146-1246 | The digits from 1 to 9 have the checksum CBF43926 |
| Crc32.SuffixBack | platform/dianxin/ns_turn_msg.c:1241-1246 | Equal registers after the same octets were equal before: each update is injective in the state |
| Crc32.BurstTells | platform/dianxin/ns_turn_msg.c:1241-1246 | From equal registers a burst of at most 32 bits, also one over five octets, never leads to equal registers |
| Crc32.FourOctets | platform/dianxin/ns_turn_msg.c:1241-1246 | Any change within four adjacent octets is such a burst |
| Crc32.BurstDetected | platform/dianxin/ns_turn_msg.c:1146-1246 | Sequences that differ only in a burst of at most 32 bits, one octet included, have different checksums |
| StunSecurity.AddIntegrityIsMessage | platform/dianxin/ns_turn_msg.c:1303-1329 | A successful integrity add appends exactly one attribute: the keyed hash of the message with the final length in its header |
| StunSecurity.AddIntegrityExactly | platform/dianxin/ns_turn_msg.c:1303-1329 | What is appended octet by octet, 00 08 00 and 14 or 20, then the hash; it succeeds if and only if there is room and the hash does not fail |
| StunSecurity.IntegrityStores | platform/dianxin/ns_turn_msg.c:1303-1329 | For any header: on success the last octets are the keyed hash of all before the last attribute; without room nothing changes |
| StunSecurity.AddIntegrityStr | platform/dianxin/ns_turn_msg.c:1303-1329 | On any buffer and header the in-place add returns and leaves exactly what the specification says, on refusal and hash failure too, keyed with the password up to its zero or with the key |
| StunSecurity.IntegrityAddedIsAdd | platform/dianxin/ns_turn_msg.c:1303-1329 | On a consistent message that is the abstract add |
| StunSecurity.CheckMessageIntegrityByKey | platform/dianxin/ns_turn_msg.c:1373-1428 | For any header the check leaves every octet of the memory as it was and gives the specified verdict and hash type |
| StunSecurity.CheckExactly | platform/dianxin/ns_turn_msg.c:1373-1428 | All verdicts for any header: when a hash type is stored, when the code is -1, and that it is 1 if and only if the value is the keyed hash of what precedes it |
| StunSecurity.IntegrityDecides | platform/dianxin/ns_turn_msg.c:1373-1428 | On a message with any integrity value, grown behind it and in any memory: 1 if and only if the value is the keyed hash, else 0; -1 for other lengths |
| StunSecurity.IntegrityMissing | platform/dianxin/ns_turn_msg.c:1380-1382 | A message without an integrity attribute fails |
| StunSecurity.CheckPrefix | platform/dianxin/ns_turn_msg.c:1373-1428 | The verdict on a message is the same in any memory that starts with it |
| StunSecurity.IntegrityHolds | platform/dianxin/ns_turn_msg.c:1373-1428 | However the message grew behind its integrity attribute, and in any memory, the check returns 1 with the same hash type |
| StunSecurity.FingerprintInjective | platform/dianxin/ns_turn_msg.c:1141 | The stored fingerprint octets determine the checksum |
| StunSecurity.FingerprintOrder | platform/dianxin/ns_turn_msg.c:1141 | The four stored octets, most significant first, are the checksum XOR 0x5354554E |
| StunSecurity.AddFingerprintIsMessage | platform/dianxin/ns_turn_msg.c:1136-1143 | With room, exactly one attribute is appended, over the checksum of the message with the final length in its header |
| StunSecurity.AddFingerprintExactly | platform/dianxin/ns_turn_msg.c:1136-1143 | What is appended octet by octet, 80 28 00 04 and the fingerprint; and what is overwritten without room |
| StunSecurity.FingerprintStores | platform/dianxin/ns_turn_msg.c:1136-1143 | For any header: the last four octets are the fingerprint of all but the last eight |
| StunSecurity.AddFingerprintStr | platform/dianxin/ns_turn_msg.c:1136-1143 | On any buffer and header the in-place add leaves what the specification says, also when the inner add is refused |
| StunSecurity.FingerprintAddedIsAdd | platform/dianxin/ns_turn_msg.c:1136-1143 | On a consistent message that is the abstract add |
| StunSecurity.IsCommandMessageFullCheck | platform/dianxin/ns_turn_msg.c:177-199 | The check computes its specification on every buffer, with what it stores about the fingerprint |
| StunSecurity.FingerprintHolds | platform/dianxin/ns_turn_msg.c:177-199 | A fingerprint added last passes the full check, in any memory |
| StunSecurity.FingerprintDecides | platform/dianxin/ns_turn_msg.c:189-198 | On a message with any fingerprint value, wherever it sits: accepted if and only if it is the checksum of all that precedes it as received |
| StunSecurity.FingerprintMissing | platform/dianxin/ns_turn_msg.c:181-188 | Without a fingerprint a command passes if and only if it is a binding message or need not have one |
| StunSecurity.FullCheckRefuses | platform/dianxin/ns_turn_msg.c:178-179 | What is no command message fails and nothing is stored |
| StunSecurity.BuildThenVerify | platform/dianxin/ns_turn_msg.c:1303-1428 | Initialise, add, integrity, add, fingerprint: both checks accept the result in any memory that starts with it, and it is recognised as built |
| StunSecurity.FingerprintDetects | platform/dianxin/ns_turn_msg.c:177-199 | Of two messages that differ before the fingerprint only in a burst of at most 32 bits, at most one passes |
| IoAddr.EqualExactly | platform/dianxin/ns_turn_ioaddr.c:143-181 | Equality is that of family and octets, for addr_eq of the port too |
| IoAddr.TranslateExactly | platform/dianxin/ns_turn_ioaddr.c:447-471 | The address is that of the first matching entry with the port kept; without a match nothing changes |
| IoAddr.AddedTranslates | platform/dianxin/ns_turn_ioaddr.c:434-471 | A new mapping stays behind the old ones: every address that an old entry translates is translated as before, only new ones follow the new entry |
| IoAddr.AddedDistinct | platform/dianxin/ns_turn_ioaddr.c:434-445 | A table of distinct addresses stays one if and only if an IPv4 or IPv6 address that it does not hold is added |
| IoAddr.AddrMap.FromPublicToPrivate | platform/dianxin/ns_turn_ioaddr.c:447-458 | The loop computes the translation by the first equal public entry, keeping the port |
| IoAddr.AddrMap.FromPrivateToPublic | platform/dianxin/ns_turn_ioaddr.c:460-471 | The loop computes the translation by the first equal private entry, keeping the port |
| IoAddr.MapRoundTrip | platform/dianxin/ns_turn_ioaddr.c:447-471 | To public and back is the identity on an address if and only if its entries lead back |
| IoAddr.SharedPublicMisleads | platform/dianxin/ns_turn_ioaddr.c:447-471 | Two private addresses behind one public address: the second comes back as the first |
| IoAddr.DistinctMapsBack | platform/dianxin/ns_turn_ioaddr.c:434-471 | Pairwise distinct public entries, none equal to an unmapped address, make the round trip hold |
| StunAddr.StunAddrEncode | platform/dianxin/ns_turn_msg_addr.c:35-107 | The encoder with its index loops writes exactly the specified field, or refuses the family |
| StunAddr.AddrValueExactly | platform/dianxin/ns_turn_msg.c:1023-1046 | The value octet by octet: family 1 or 2, port and address XORed with 21 12 A4 42 and the transaction id if and only if the type is 0x0012, 0x0016 or 0x0020 |
| StunAddr.AddrTypes | platform/dianxin/ns_turn_msg.c:922-944 | The address types by number, and which are XORed |
| Octets.XorBits | platform/dianxin/ns_turn_msg_addr.c:86-91 | A masked octet has exactly the bits in which octet and mask differ |
| StunAddr.MaskedOctets | platform/dianxin/ns_turn_msg_addr.c:86-99 | A field is masked octet by octet, in order, or copied |
| StunAddr.EncodeDecode | platform/dianxin/ns_turn_msg_addr.c:35-180 | Decoding an encoded IPv4 or IPv6 address, plain or XORed, gives an equal address |
| StunAddr.AddAddrStr | platform/dianxin/ns_turn_msg.c:1023-1051 | On any buffer and header the in-place add maps, encodes and appends, or leaves the buffer alone and returns -1 |
| StunAddr.AddrAddedIsAdd | platform/dianxin/ns_turn_msg.c:1023-1051 | On a consistent message that is the abstract add |
| StunAddr.AddrAdds | platform/dianxin/ns_turn_msg.c:1023-1051 | An IPv4 or IPv6 address whose entries lead back is refused if and only if there is no room for its 8 or 20 octets |
| StunAddr.StunAddrDecode | platform/dianxin/ns_turn_msg_addr.c:109-180 | The decoder with its copies and index loops computes the specified code and address |
| StunAddr.GetAddrStr | platform/dianxin/ns_turn_msg.c:1053-1091 | The in-place getter decodes, maps back and falls back to the default address with the port kept |
| StunAddr.GetAddrExactly | platform/dianxin/ns_turn_msg.c:1053-1091 | What every field decodes to: only 8 octets of family 1 and 20 of family 2 do, XORed back for the same three types, mapped, and defaulted |
| StunAddr.DefaultExactly | platform/dianxin/ns_turn_msg.c:1084-1088 | The default replaces exactly the unspecified addresses, and the port that came is kept |
| StunAddr.GetFirstAddrStr | platform/dianxin/ns_turn_msg.c:1093-1107 | The search loop returns the first attribute of the type that decodes, mapped back, for any header |
| StunAddr.FirstAddrIsFirst | platform/dianxin/ns_turn_msg.c:1093-1107 | Attributes of the type that do not decode are skipped, and the first that does is the answer |
| StunAddr.FirstAddrNone | platform/dianxin/ns_turn_msg.c:1093-1107 | Nothing is found when none of them decodes |
| StunAddr.FirstAddrOtherType | platform/dianxin/ns_turn_msg.c:922-944 | Types that are no address types are never found |
| StunAddr.AddrRoundTrip | platform/dianxin/ns_turn_msg.c:1023-1107 | An address added under a fresh type, with any attributes behind it and in any memory, comes back equal through the whole message and the table |
| AddrHash.HashInt32Injective | platform/dianxin/ns_turn_ioaddr.c:82-88 | hash_int32 is injective on 32-bit words |
| AddrHash.HashInt64Injective | platform/dianxin/ns_turn_ioaddr.c:90-96 | hash_int64 is injective on 64-bit words |
| AddrHash.HashNoPortExact | platform/dianxin/ns_turn_ioaddr.c:113-126 | On IPv4 the port-free hashes are equal if and only if addr_eq_no_port holds |
| AddrHash.EqualHash | platform/dianxin/ns_turn_ioaddr.c:98-181 | Equal addresses of either family hash alike, with and without port |
| AddrHash.HashCollides | platform/dianxin/ns_turn_ioaddr.c:98-111 | With the port, two IPv4 addresses collide if and only if address and port have the same sum |
| AddrHash.HashHalves | platform/dianxin/ns_turn_ioaddr.c:98-126 | Which halves of an IPv6 address are mixed, and where the port is added |
| AddrHash.LoadOrder | platform/dianxin/ns_turn_ioaddr.c:98-126 | The machine words take the first octet as the least significant |
| AddrHash.HashValues | platform/dianxin/ns_turn_ioaddr.c:82-126 | Known values of both hashes and of the mix |
| StunErrors.MakeErrorValue | platform/dianxin/ns_turn_msg.c:348-400 | The local buffer holds class, number, the reason cut to 508 octets and zeros up to a multiple of four |
| StunErrors.ErrorValueExactly | platform/dianxin/ns_turn_msg.c:383-400 | The value octet by octet: two zeros, hundreds, rest, at most 508 octets of text, zeros |
| StunErrors.ReasonsExactly | platform/dianxin/ns_turn_msg.c:353-381 | The text for each code without a reason, and that a given reason is used as it is |
| StunErrors.AsciiExactly | platform/dianxin/ns_turn_msg.c:355-380 | The texts are stored character by character |
| StunErrors.InitErrorResponse | platform/dianxin/ns_turn_msg.c:348-428 | The in-place builder leaves the specified error response under the request's id |
| StunErrors.IsErrorResponse | platform/dianxin/ns_turn_msg.c:215-240 | For any header the parser gives the specified answer, code and zero-terminated reason, and writes nothing else |
| StunErrors.ErrorParsed | platform/dianxin/ns_turn_msg.c:215-240 | What is parsed, in terms of the memory: no code below four octets, then hundreds and rest, and the text cut at the buffer |
| StunErrors.IsChallengeResponse | platform/dianxin/ns_turn_msg.c:242-271 | For any header the parser answers as specified and stores code, reason, REALM and NONCE, each exactly when the source does |
| StunErrors.ChallengeExactly | platform/dianxin/ns_turn_msg.c:242-271 | A response is a challenge if and only if it is an error with code 401, 438 or 426 and non-empty REALM and NONCE; what is stored when |
| StunErrors.ErrorRoundTrip | platform/dianxin/ns_turn_msg.c:215-240 | Code comes back if and only if it is below 25600; the reason is cut only at 508 octets and the caller's buffer; attributes and memory behind it do not matter |
| StunErrors.ChallengeRoundTrip | platform/dianxin/ns_turn_msg.c:242-271 | Codes 401, 438 and 426 with non-empty REALM and NONCE, wherever they sit, give 1 and exactly those octets |
| StunFraming.InitChannelMessage | platform/dianxin/ns_turn_msg.c:432-446 | Four header octets, the padded total, no other octet; refused exactly for a bad length; the total may pass the repository's own buffer |
| StunFraming.ChannelHeaderOctets | platform/dianxin/ns_turn_msg.c:437-438 | Number and length, each most significant octet first |
| StunFraming.IsChannelMessageStr | platform/dianxin/ns_turn_msg.c:448-494 | The nested tests compute answer, number and remaining length |
| StunFraming.ChannelAccepts | platform/dianxin/ns_turn_msg.c:448-494 | Exactly which buffers are accepted, with and without mandatory padding, and what is stored |
| StunFraming.TotalFits | platform/dianxin/ns_turn_msg.c:436-443 | An accepted total stays within the largest message if and only if it is not the padded one of a length from 65501 on |
| StunFraming.PaddedTotalOverruns | platform/dianxin/ns_turn_msg.c:436-443 | The length 65501 is accepted and its padded total is 65508 |
| StunFraming.FindStr | platform/dianxin/ns_turn_msg.c:498-528 | The search loop finds the first occurrence of the needle, or none |
| StunFraming.HeadOfFour | platform/dianxin/ns_turn_msg.c:498-506 | An occurrence agrees in every octet |
| StunFraming.IsHttpGet | platform/dianxin/ns_turn_msg.c:508-548 | The two searches give the end of the first blank line behind the first HTTP, or 0 |
| StunFraming.HttpFound | platform/dianxin/ns_turn_msg.c:530-548 | A request ends with the first blank line behind the first HTTP |
| StunFraming.HttpNone | platform/dianxin/ns_turn_msg.c:530-548 | Without them, or without GET in front, the length is 0 |
| StunFraming.HttpSplits | platform/dianxin/ns_turn_msg.c:575-582 | A complete request in front of a stream is cut |
| StunFraming.GetMessageLen | platform/dianxin/ns_turn_msg.c:554-606 | The branches of the splitter compute the specification, 16-bit wrap included; what they cut is there, and a command message in front is cut whole |
| StunFraming.CommandLenExact | platform/dianxin/ns_turn_msg.c:557-573 | As far as the total does not wrap, the STUN branch answers a length if and only if that many octets are a command message |
| StunFraming.SumsWrap | platform/dianxin/ns_turn_msg.c:562-600 | What the 16-bit sums give beyond 65535, and the exact answer of the ChannelData branch |
| StunFraming.CommandSplits | platform/dianxin/ns_turn_msg.c:554-580 | A command in front of any octets is split off whole |
| StunFraming.ChannelSplitsExactly | platform/dianxin/ns_turn_msg.c:554-606 | A padded ChannelData message is split off with its own lengths if and only if the HTTP branch does not answer with another length, and that branch only answers for the one header |
| StunFraming.GetChannelIsMisread | platform/dianxin/ns_turn_msg.c:530-606 | The exception is real: a concrete message is cut short |
| StunFraming.FrameSplits | platform/dianxin/ns_turn_msg.c:554-606 | Any codec-built message but the one that spells GET is split off a stream whole, with its unpadded size |
| StunFraming.StreamSplits | platform/dianxin/ns_turn_msg.c:554-606 | Any concatenation of codec-built messages and any suffix is split into exactly those messages with their unpadded sizes |
| StunFraming.IncompleteWaits | platform/dianxin/ns_turn_msg.c:554-606 | From an incomplete codec-built message nothing is split off, and its unpadded size is stored exactly when it is ChannelData with its header there |
| StunFraming.UnpaddedSplits | platform/dianxin/ns_turn_msg.c:585-600 | Without padding a ChannelData message ends with its data |
| StunFraming.ChannelFrameRecognised | platform/dianxin/ns_turn_msg.c:448-494 | Each split ChannelData message is accepted with its own number and length |
| StunFraming.UnpaddedChannelRecognised | platform/dianxin/ns_turn_msg.c:448-494 | So is an unpadded one, with or without mandatory padding |
| SaslPrep.SASLprep | platform/dianxin/ns_turn_msg.c:1252-1289 | The two-pointer pass leaves the prepared text and its zero on success, the prepared prefix on failure, the rest untouched, and fails exactly on a prohibited octet |
| SaslPrep.PreparedExactly | platform/dianxin/ns_turn_msg.c:1264-1284 | What becomes of each octet: 0xAD goes, 0xA0 becomes a space, any other stays |
| SaslPrep.OutcomeExactly | platform/dianxin/ns_turn_msg.c:1274-1280 | The run succeeds if and only if no octet is below 0x1F, 0x7F, or from 0x80 to 0x9F |
| SaslPrep.PreparedLength | platform/dianxin/ns_turn_msg.c:1252-1289 | The text gets shorter by the number of 0xAD octets |
| SaslPrep.PreparedClean | platform/dianxin/ns_turn_msg.c:1252-1289 | No prohibited octet, 0xAD or 0xA0 is left |
| SaslPrep.PreparedTwice | platform/dianxin/ns_turn_msg.c:1252-1289 | Preparing twice is preparing once, and succeeds |
| SaslPrep.SecondRunChangesNothing | platform/dianxin/ns_turn_msg.c:1252-1289 | A second run over what a successful run left succeeds and changes no octet of the memory, and has no other outcome |
| CodeLength.CODELENGTH | platform/dianxin/codelength.h:17-21 | The stores at the advancing pointer append exactly the encoding and need no more room than it takes |
| CodeLength.EncodeValues | platform/dianxin/codelength.h:17-21 | The octets on both sides of each step in length |
| CodeLength.DECODELENGTH | platform/dianxin/codelength.h:13-15 | The do-while loop computes the specified number and stops right behind its code |
| CodeLength.DecodeEncode | platform/dianxin/codelength.h:13-21 | Every 32-bit number is decoded from its encoding, whatever follows |
| CodeLength.StreamRoundTrip | platform/dianxin/codelength.h:13-21 | Concatenated encodings decode to the same numbers and leave exactly the octets behind them |
| CodeLength.EncodeCanonical | platform/dianxin/codelength.h:17-21 | No encoding has a redundant leading group |
| CodeLength.EncodeDecode | platform/dianxin/codelength.h:13-21 | Every canonical code is the encoding of what it decodes to |
| LinuxList.NextPrevInverse | platform/dianxin/linux_list.h:30-32 | next and prev undo each other everywhere on a ring |
| LinuxList.RingUnique | platform/dianxin/linux_list.h:30-32 | The links determine the sequence of entries |
| LinuxList.ListAddBetween | platform/dianxin/linux_list.h:49-57 | Inserts between any two neighbours of a ring, the wrap-around included |
| LinuxList.ListAdd | platform/dianxin/linux_list.h:67-70 | Prepends the entry; only the neighbours change |
| LinuxList.ListAddTail | platform/dianxin/linux_list.h:80-83 | Appends the entry; only the neighbours change |
| LinuxList.ListDelBetween | platform/dianxin/linux_list.h:92-96 | The ring closes around the entry, whose own links stay stale |
| LinuxList.ListDel | platform/dianxin/linux_list.h:103-108 | Removes the entry, whose links become null |
| LinuxList.ListDelInit | platform/dianxin/linux_list.h:114-118 | Removes the entry, which becomes an empty list |
| LinuxList.ListEmpty | platform/dianxin/linux_list.h:147-150 | True exactly for a list without entries |
| LinuxList.ListMove | platform/dianxin/linux_list.h:125-129 | Leaves one list and becomes the first entry of another |
| LinuxList.ListMoveWithin | platform/dianxin/linux_list.h:125-129 | Becomes the first entry of its own list |
| LinuxList.ListMoveTail | platform/dianxin/linux_list.h:136-141 | Leaves one list and becomes the last entry of another |
| LinuxList.ListMoveTailWithin | platform/dianxin/linux_list.h:136-141 | Becomes the last entry of its own list |
| LinuxList.ListSpliceNonEmpty | platform/dianxin/linux_list.h:152-164 | Splices a non-empty list in; its head keeps its stale links |
| LinuxList.ListSplice | platform/dianxin/linux_list.h:171-175 | The entries of one list, in order, in front of those of the other |
| LinuxList.ListSpliceInit | platform/dianxin/linux_list.h:184-191 | The same, and the emptied list is a proper empty list |
| LinuxList.DeleteDuring | platform/dianxin/linux_list.h:225-227 | A safe loop deleting any subset of the entries it is on visits each once, in order, and leaves exactly the others in order |
| PropSheets.NothingFits | gui/my_propsheet.c:231-247 | No page can be displayed first if and only if the active tab alone is too wide |
| PropSheets.FitsFromHead | gui/my_propsheet.c:201-217 | A sheet that is not overloaded shows everything from the head |
| PropSheets.PropSheet.TestOverload | gui/my_propsheet.c:201-213 | The first loop decides whether some leading tabs exceed what the scroll buttons leave, and sets head_width then |
| PropSheets.PropSheet.TestRightOfActive | gui/my_propsheet.c:219-229 | The second loop moves a first page right of the active one to it, and no other |
| PropSheets.PropSheet.ReachesActive | gui/my_propsheet.c:234-244 | The inner loop finds out whether the tabs from a page through the active one fit |
| PropSheets.PropSheet.ScrollToActive | gui/my_propsheet.c:231-247 | The last loop stops at the leftmost page from which the active tab shows, or runs off the list |
| PropSheets.PropSheet.UpdatePropsheet | gui/my_propsheet.c:193-248 | The loops decide overload and choose the least scrolling from the starting page that makes first through active fit, or none |
| PropSheets.PropSheet.Update | gui/my_propsheet.c:193-248 | When each tab fits alone, the invariant is restored and the active tab is shown; without overload from the head |
| PropSheets.PropSheet.AppendPage | gui/my_propsheet.c:420-442 | The list grows by the page at its end and the count with it |
| PropSheets.PropSheet.UnlinkPage | gui/my_propsheet.c:444-461 | The list loses exactly the page and keeps its order |
| PropSheets.PropSheet.GetPage | gui/my_propsheet.c:402-418 | The page at an index, or null outside the list |
| PropSheets.PropSheet.GetLeftPage | gui/my_propsheet.c:94-109 | The page before the given one, or null at the head |
| PropSheets.PropSheet.TabRequiredWidth | gui/my_propsheet.c:359-378 | A tab is never wider than what the scroll buttons leave |
| PropSheets.PropSheet.MeasureTab | gui/my_propsheet.c:359-378 | The measuring computes that width |
| PropSheets.PropSheet.TabWidthExactly | gui/my_propsheet.c:359-378 | Text plus 8 plus icon, at least 10, at most what the scroll buttons leave |
| PropSheets.PropSheet.InsertNewPage | gui/my_propsheet.c:622-642 | The new page is last, active and shown, and the invariant holds |
| PropSheets.PropSheet.ScrollTabRight | gui/my_propsheet.c:252-262 | The next page, if any, becomes active and shown |
| PropSheets.PropSheet.ScrollTabLeft | gui/my_propsheet.c:268-284 | The previous page, if any, becomes active and shown |
| PropSheets.PropSheet.ActivateIndex | gui/my_propsheet.c:923-937 | Succeeds exactly for another existing page, which becomes active and shown |
| PropSheets.PropSheet.SetPageTitle | gui/my_propsheet.c:764-783 | A stored title is remeasured and the sheet updated; otherwise title lost and width kept |
| PropSheets.PropSheet.LeavePage | gui/my_propsheet.c:793-826 | Both cursors leave the page that goes, and stay in order |
| PropSheets.PropSheet.DeletePage | gui/my_propsheet.c:786-843 | Exactly the page goes; the right neighbour, else the left, takes over from an active page, any other active page stays |
| PropSheets.PropSheet.HitTab | gui/my_propsheet.c:745-758 | The leftmost tab whose displayed extent holds the point and that is not active, or none |
| PropSheets.PropSheet.ClickTabBar | gui/my_propsheet.c:696-760 | Scroll buttons scroll by one; any other click in the bar makes exactly the leftmost displayed tab under it active, if there is one besides the active, and moves no tab; the invariant holds |
| PropSheets.PropSheet.SizeChanged | gui/my_propsheet.c:868-891 | A sheet that does not shrink keeps the invariant, with the whole head as budget |
| PropSheets.PropSheet.ControlProc | gui/my_propsheet.c:849-1146 | What each message to a scrollable sheet does, and that it keeps the invariant unless it shrinks the sheet |
| PropSheets.PropSheet.Run | gui/my_propsheet.c:849-1146 | So does every run: count is the list length, both cursors are null or members, first not right of active |
| PropSheets.EqualFits | gui/my_propsheet.c:170-183 | Tabs of equal width never overflow the head |
| PropSheets.EqualWidthExactly | gui/my_propsheet.c:174-176 | The widest tabs that leave a fifth of the head free, or, when these are too narrow, the widest that fit |
| PropSheets.CompactFits | gui/my_propsheet.c:116-163 | The compact layout never overflows the head, and fills it to the pixel when it had to cut its last tab |
| PropSheets.CompactExactly | gui/my_propsheet.c:116-163 | Tabs that fit keep their natural width; others give up the common step down to 10, except a last one that is cut |
| PropSheets.ShrinkStepExactly | gui/my_propsheet.c:146-149 | The step is the excess divided by the count, rounded down, but at least 1 |
| PropSheets.PropSheet.NaturalWidthExactly | gui/my_propsheet.c:128-138 | Text plus 8 plus icon, at least 10 |
| PropSheets.CompactBounds | gui/my_propsheet.c:136-159 | No tab grows, only the last goes below the minimum, and it gets a negative width if and only if the tabs overflow the head and all but the last, shrunk by the common step, still do |
| PropSheets.CompactCanGoNegative | gui/my_propsheet.c:156-159 | Cutting the last tab can leave it a negative width |
| PropSheets.PropSheet.RecalcTabWidths | gui/my_propsheet.c:112-185 | The loops compute these layouts, the tabs fit, and head_width is their sum, except that it misses a cut last tab |

## Left out

- The keyed hash, MD5 and the OpenSSL calls: a parameter that gives a code of the right length or fails; so are the derived long-term key and the by-user wrappers around it.
- The random transaction id: a parameter of the initialisers.
- Builds without SHA-256, where a stored 32-octet code would be refused.
- Null pointer arguments (`addr_eq` of null, a missing code or output pointer): the model's arguments exist.
- StunBuffers.StunBuffer.AddStr: attribute lengths near the 32-bit limit, where the source's signed sum overflows, are not modelled.
- StunBuffers.StunBuffer.GetFirstByType: asks, with all that is built on the search, that the memory holds the padded length that the header declares, because the source walks that far whatever the buffer.
- StunFraming.StreamSplits: is stated for messages the codec can build and not for the one header that spells GET; other headers, near 65535 too, are covered by GetMessageLen alone.
- StunErrors.IsErrorResponse: requires the value of the first ERROR-CODE attribute of an error response to lie in the memory, because the source reads it without looking; likewise REALM and NONCE of a challenge.
- StunAddr.GetFirstAddrStr: requires the octets of the fields it decodes to lie in the memory, because the source reads them without looking.
- StunSecurity.IsCommandMessageFullCheck: requires four octets behind a message that ends in a bare fingerprint header, and only then, because the source reads them.
- Bit-exact hash values: AddrHash reads addresses as a little-endian machine does.
- The message variants with an old cookie, except their initialiser; lifetimes; requested family, even-port, reservation and RFC 5780 attributes; allocate, binding and channel-bind builders: plain sequences of the calls modelled here.
- Address ranges, multicast and loopback tests, and text forms: the IPv6 range test compares octets as a partial order, so numeric membership does not hold; text forms are foreign calls.
- `stun_buffer.c` only forwards to the codec; sockets, threads and timers of `hi_dianxin_turn.c`, `hi_ftp.c` and `connecthostport.c` rest on calls that are not part of this model.
- `list_for_each`, its backward and entry variants and `list_entry`: cursor loops without removal and pointer arithmetic.
- Freeing of pages, drawing, window handles, notifications, child windows and the storage of titles; a title counts by its measured extent.
- PropSheets.PropSheet.SizeChanged: leaves out a resize that makes the sheet narrower, after which tabs may be wider than the head and no first page need exist (NothingFits).
- PropSheets.PropSheet.ControlProc: leaves out that resize, and the styles that do not scroll, which do not maintain the first displayed page.
- PropSheets.PropSheet.Run: leaves out the same messages.
- PropSheets.PropSheet.ScrollTabLeft: leaves out the fallback to the head and DeletePage its fallback to the left page behind a removed first page, which no state of a valid sheet reaches.
- Keyboard selection in the styles that do not scroll.
- `av_pool`, `bsdqueue.h` and the vendored headers.

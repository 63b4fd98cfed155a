# numa: a verified model of its resolver logic

numa is a DNS resolver. This project models the parts of it that are logic rather than plumbing and proves properties of
them: the wire codec, the DNSSEC validator, the concurrent protocols (query coalescing, the ODoH config cache, hedged
requests), iterative resolution and the CNAME chase, the cache, the local zone index and upstream failover.

`dafny verify dfyconfig.toml` checks everything.

## How it is laid out

| files | what they model |
|---|---|
| `Bytes`, `Names`, `PacketBuffer`, `Question`, `Header`, `Record`, `RecordCodec`, `Packet`, `LongNames`, `Messages` | the wire codec, over a class with the 4096-byte array, the position and the overflow flag; names that outgrow it |
| `Canonical`, `KeyEncoding`, `Dnssec` | canonical forms, signed data, RSA keys in DER, signatures and the chain of trust |
| `Grouping`, `TypeBitmap`, `Nsec3`, `NameOrder`, `Pieces`, `EscapedOrder` | RRsets, type bitmaps, hashes, names in dot-separated pieces and their order |
| `Denial`, `WildcardDenial`, `DenialNames`, `DenialValidation`, `DenialTrust`, `RrsetValidation`, `LooseTrust` | NSEC and NSEC3 denial, what it settles and what it rests on, validation of whole responses, what that does not compare |
| `Coalescing`, `OdohCache`, `Hedging` | concurrent protocols |
| `Recursive`, `CnameChase`, `Failover` | resolution control flow |
| `Cache`, `Zones` | stateful stores |

Conventions. A Rust string is the sequence of its UTF-8 bytes, and `to_lowercase` lower-cases ASCII. Errors carry no
message: a fallible function returns an `Option`, or a `Result` where the error matters. Signatures, digests, fetches,
the clock and servers are function-valued fields of a record that every theorem quantifies over; a fetch is a function of
the zone it is for. The iteration order of a hash map is arbitrary. A state machine stands for code with
`await` points: every load, store, lock and await is a step, and the theorems hold for every interleaving.
Where a Rust `expect` can panic, the model returns `None` (`name_to_wire`) or says so in the result (the CNAME chase), and
a theorem says for which inputs; a signature whose data cannot be built verifies nothing, and a DS record of a zone whose
name cannot be written matches no key.

## What the proofs found

Each of these is a property that does not hold as one would first write it, with an input that breaks it and the exact
condition under which it holds.

- An opaque record reports `QueryType::UNKNOWN(n)` even when `n` has a name. An RRSIG of the same owner matches an RRset
  exactly when the type is canonical and is the one covered (`RrsetValidation.MatchesIff`), so none ever matches a TXT, SRV
  or HTTPS RRset, which then counts as unsigned. In the CNAME chase comparing types agrees with comparing type numbers
  exactly for the types the reader parses and for `UNKNOWN` (`CnameChase.ComparableIff`); for the others no answer settles
  the chase (`CnameChase.OpaqueTypesNeverSettle`).
- An RRset without a matching RRSIG is skipped. One record and one RRSIG of another name beside it are Secure in every
  world, also in one where nothing verifies (`RrsetValidation.StraySignatureIsEnough`,
  `RrsetValidation.UnmatchedAnswersAreSecure`). In a Secure answer an RRset has an authentic signature exactly when it has
  a matching one (`RrsetValidation.SecureAnswersAreAuthentic`).
- Neither the signer nor the labels field is compared with the owner. One anchored zone signs the address of any name
  whatever (`LooseTrust.AnyZoneCanSign`), the owner of the RRSIG plays no part (`RrsetValidation.OwnerIsNotCompared`), and
  a signature counts exactly if a key of the signer made it and a chain leads from there to an anchor
  (`RrsetValidation.VerifiedIffAuthentic`).
- Nor are the owners of the DS and DNSKEY records compared with the zone they are fetched for, as section 5 of RFC 4035
  asks: the chain of `Dnssec.SecureIffChain` is over what was fetched, and may run over records of any other name
  (`LooseTrust.ForeignDsIsSecure`).
- A Secure denial rests on cached key sets alone. For a given cache, as it stands once the signers' key sets have been
  fetched into it, the verdict takes no anchors and no further fetch changes it (`DenialTrust.DenialIgnoresChains`), so it
  may be Secure where no chain leads to an anchor (`DenialTrust.SecureDenialWithoutChain`). A cached key set heads a chain
  exactly when the walk from it would have been Secure (`DenialTrust.HeadsChainIff`), and then the denial is authentic
  (`DenialTrust.DenialIsAuthentic`).
- An NSEC3 proof of NXDOMAIN does not test that the name itself is not hashed (`WildcardDenial.HashedNameMayBeDenied`), and
  cannot deny a name of one label (`Denial.HashNxdomainIsAbsent`). In a zone that holds whatever lies between two of its names, as section 7.1 of RFC 5155
  asks, the name is absent nevertheless, and the encloser found is the closest (`Denial.HashNxdomainIsClosest`).
- The wildcard test of an NXDOMAIN proof accepts a wildcard that exists, whatever its types, although the comment asks for
  the type to be absent (src/dnssec.rs:1368, `WildcardDenial.WildcardTypeIsNotChecked`): the wildcard has the type exactly
  when a presented NSEC of its own shows it (`WildcardDenial.WildcardTypeIff`). And the wildcard tried is that of
  the closest encloser among the presented owners, which may be none or a higher one than the zone's
  (`WildcardDenial.NoEncloserNoWildcard`, `WildcardDenial.HigherEncloserOtherWildcard`): the proof may be Secure for two
  zones that differ in the right wildcard (`WildcardDenial.SecureLeavesWildcardOpen`). With the zone's own encloser
  presented, the wildcard exists exactly if one of the presented NSECs is its own (`WildcardDenial.EncloserSettlesWildcard`);
  in general the presented records settle a name exactly when one is its own or covers it (`WildcardDenial.SettledIff`).
- The canonical order compares escaped text, not label bytes. It is a total order; for labels without dots it is that of
  section 6.1 of RFC 4034 exactly when the first two bytes that differ are ordered as their escapes are, and the reverse
  otherwise (`EscapedOrder.OrderIsRfcIff`, with an instance in `EscapedOrder.EscapesChangeTheOrder`). With dots in labels
  even different names compare as equal (`EscapedOrder.DotsMakeNamesEqual`).
- `parent_zone` cuts at the first dot of the text, escaped or not: the parent has the labels after the first exactly when
  that label holds no dot before its last byte (`Dnssec.ParentIsLabelsIff`, `Dnssec.EscapedDotSplitsAZone`).
- The slack of the RRSIG time test is not serial arithmetic. The two agree exactly when, short of the wrap, the inception
  is not half a cycle or more back, and in the last 300 s before it, when the inception is not ahead
  (`Dnssec.SlackIsSerialIff`). Else the test accepts an inception years ahead (`Dnssec.SlackIsNotSerial`) or loses its
  slack (`Dnssec.SlackIsLost`).
- Any record of type 41 at the root in the additional section is written like an OPT record and read back as one. So a
  packet makes the round trip exactly when it has no such record (`Packet.PacketRoundTripIff`), and loses them otherwise
  (`Packet.WrittenReadsAs`). The reader itself makes one when the root is reached through a pointer
  (`Packet.PointedRootIsNotOpt`).
- What the reader accepts can always be written, but for the room: pointers let a name read bytes of the buffer twice, up
  to six times its size in all (`Names.ReadNameSize`). A single record survives that wherever it is written
  (`Record.ParsedRecordRoundTrip`). A whole packet comes back exactly when its uncompressed form fits 4096 bytes and nothing
  looks like OPT (`Packet.WriteThenRead`, `Packet.ParsedPacketIsEncodable`); `LongNames.ParsedPacketMayNotFit` is one that
  does not fit.
- The same name panics where the code expects a name it has read to be writable. The sub-query of a CNAME chase serializes
  exactly up to 4080 bytes of target (`CnameChase.SerializesIff`, `CnameChase.ParsedNameThatPanics`), and a chase sent to
  such a target panics (`CnameChase.UnwritableTargetPanics`). Signed data can be built exactly when the names in it fit
  4096 bytes (`Canonical.SignedDataIff`, `DenialNames.LongNamePanics`).
- Hashing a name for an NSEC3 proof also joins its dot-separated pieces again. Putting those in wire form panics exactly when
  the last label ends in a dot, a label that ends in a dot is too long together with the next, or the result does not fit
  (`DenialNames.NeverPanicsOnLabels`).
- An opcode above 15 does not survive the header (`Header.WideOpcodeIsNotRestored`).
- The two encoders agree on every record but RRSIG, whose RDATA the canonical form drops (`Canonical.RrsigHasNoCanonicalRdata`).
- When both attempts of a hedged query fail, `forward_with_hedging_raw` keeps the earlier error, `send_query_hedged` always
  that of the first server (`Hedging`).
- `DnsCache::remove` lower-cases its argument while insertion and lookup do not: an entry filed under a name with capital
  letters stays (`Cache.RemoveMissesCapitals`; `Cache.DnsCache.Remove` says exactly which go). A `max_entries` of 0 still
  lets one entry in.
- A minimized query whose response has neither answers nor authorities is taken as the answer to the full question: that
  is a postcondition of `Recursive.Resolver.OneRound`, with an instance in `Recursive.HollowReferralIsTheAnswer`.

## Model

| member | source | states |
|---|---|---|
| Names.ReadNameIff | src/buffer.rs:100-166 | a name is accepted exactly when it spells a label list through at most five pointers, and its text is the escaped lower-case text of that list |
| Names.ParseTextOf | src/buffer.rs:198-263 | parsing the text of any label list gives back the labels in lower case: escaping and unescaping are inverse |
| Names.NormalFormIff | src/buffer.rs:100-166 | the reader's normal form is exactly the set of texts of valid label lists |
| Names.ReadWritten | src/buffer.rs:198-263 | reading what was written for normal-form text gives the text and stops at its end |
| Names.WriteRead | src/buffer.rs:198-263 | writing what was read gives the lower-cased, pointer-free labels |
| Names.ReadNameSize | src/buffer.rs:100-166 | a name read from a buffer can be written, in at most six times the size of the buffer and one byte |
| Names.EscapeIs | src/buffer.rs:140-155 | a printable byte spells itself, dot and backslash follow a backslash, any other byte becomes three decimal digits |
| Names.UnescapeIs | src/buffer.rs:198-263 | reading text, `\DDD` is a byte in decimal, `\X` any other byte, and a backslash is never alone |
| Names.PointerIs | src/buffer.rs:114-126 | a pointer is two set bits and an offset of fourteen bits; the patterns 01 and 10 are reserved |
| Names.NameEnds | src/buffer.rs:100-166 | a name ends in place behind its own labels and the root's zero or the two bytes of a pointer, wherever that leads |
| PacketBuffer.BytePacketBuffer.ReadQname | src/buffer.rs:100-166 | the loop computes the declarative name at the old position and leaves the cursor after the terminator or the first pointer |
| PacketBuffer.BytePacketBuffer.WriteQname | src/buffer.rs:198-263 | succeeds exactly on well-formed names that fit, appends exactly their wire form, and flags overflow only when bytes were missing |
| PacketBuffer.BytePacketBuffer.WriteBytes | src/buffer.rs:265-274 | appends exactly the bytes, or flags overflow and writes nothing |
| PacketBuffer.BytePacketBuffer.SetU16 | src/buffer.rs:284-290 | changes exactly the two bytes |
| Question.TypeNumbers | src/question.rs:8-45 | numbers survive `from_num`/`to_num`; types survive exactly when canonical |
| Question.AssignedNumbers | src/question.rs:44-64 | the types have the numbers the RFCs assign |
| Question.ParseWrittenQuestion | src/question.rs:77-91 | a written question reads back, at every offset |
| Question.QuestionEnds | src/question.rs:85-91 | a written question ends in the two bytes of its type number and then 0 and 1, the class IN |
| Header.FlagsRoundTrip | src/header.rs:87-138 | all flags and a four-bit opcode come back from the two flag bytes |
| Header.AssignedCodes | src/header.rs:4-25 | the codes have the numbers RFC 1035 assigns, and come back from them |
| Header.WideOpcodeIsNotRestored | src/header.rs:113-138 | with an opcode above 15 the header never comes back |
| Header.ParseWrittenHeader | src/header.rs:87-138 | a written header reads back and takes twelve bytes |
| Header.HeaderLayout | src/header.rs:113-138 | each flag, the opcode and the code stand at the bits RFC 1035 and RFC 4035 assign, and the six words in their order |
| Record.ParseWrittenRecord | src/record.rs:243-683 | for all 13 variants, reading a written well-formed record, its RDATA length within 16 bits, gives it back and stops at its end |
| Record.ParsedRecordIsWellFormed | src/record.rs:243-466 | whatever bytes the reader accepts become a well-formed record |
| Record.ParsedRecordIsShort | src/record.rs:243-466 | however its names overlap in the buffer, its RDATA length fits 16 bits |
| Record.ParsedRecordRoundTrip | src/record.rs:243-683 | so it can be written, and comes back from wherever it is |
| Record.RecordAdvances | src/record.rs:243-466 | every record read ends at least eleven bytes on and inside the buffer |
| Record.RecordWireSize | src/record.rs:677-683 | every written record takes at least eleven bytes |
| Record.RecordLayout | src/record.rs:677-683 | behind the owner: the type number, 0 and 1 for the class, the TTL, the exact length of the RDATA, and the RDATA |
| Record.RdataLayout | src/record.rs:468-675 | every field of the RDATA of every variant stands at the position its RFC gives it |
| RecordCodec.ReadRecord | src/record.rs:243-466 | the field-by-field reader computes the declarative parse and moves the cursor as it says |
| RecordCodec.WriteRecord | src/record.rs:468-675 | the writer with its backpatched RDLENGTH emits exactly the wire form, succeeds exactly when it fits, and flags overflow |
| RecordCodec.LengthAheadIsRight | src/record.rs:468-675 | a length written ahead equals the number of RDATA bytes that follow |
| Packet.SectionsAreSmall | src/packet.rs:165-204 | a packet that fits holds at most 816 questions and 371 records |
| Packet.ParsedSectionsAreSmall | src/packet.rs:107-163 | a packet read from the buffer, however its names are compressed, holds at most 371 records |
| Packet.CountsAreExact | src/packet.rs:165-204 | no section count of a packet that fits was truncated to 16 bits |
| Packet.WrittenReadsAs | src/packet.rs:107-204 | reading what was written gives the packet less the records that look like OPT, the last of them as its EDNS record unless it has its own, at any offset |
| Packet.PacketRoundTripIff | src/packet.rs:107-204 | the identity up to counts exactly when no additional record looks like OPT |
| Packet.PacketRoundTrip | src/packet.rs:107-204 | `from_buffer` on what `write` emitted gives the same packet, counts aside, and consumes exactly those bytes |
| Packet.ParsedPacketIsEncodable | src/packet.rs:107-163 | whatever the reader accepts has a wire form and meets the conditions of `WrittenReadsAs` but for its size |
| LongNames.ParsedPacketMayNotFit | src/packet.rs:107-204 | a 4096-byte buffer that the reader accepts and whose packet takes 7812 bytes to write |
| Packet.PointedRootIsNotOpt | src/packet.rs:130-158 | a family of buffers from which the reader does make a record that looks like OPT: type 41 at the root reached through a pointer |
| Packet.FromBuffer | src/packet.rs:107-163 | the counted loops compute the declarative parse, OPT detection included |
| Packet.WritePacket | src/packet.rs:165-204 | emits exactly the packet's wire form or fails, flagging overflow when it did not fit |
| Packet.WrittenQuestionEnds | src/packet.rs:165-204 | every question of a written packet ends in its type number and the class IN |
| Packet.SectionsInOrder | src/packet.rs:165-204 | the bytes are the header, the four sections in the order of their counts, and the OPT record last |
| Packet.EdnsLayout | src/packet.rs:189-201 | the OPT record byte by byte: of its flags only DO is ever set |
| Packet.WriteThenRead | src/packet.rs:107-204 | for every encodable packet, writing and reading back succeeds exactly when it fits, gives what `WrittenReadsAs` says with exact counts, and is the identity up to counts exactly when nothing looks like OPT besides |
| Messages.RepliesAre | src/packet.rs:96-105 | a reply made from a query has its id, its question list, the response flag, the code given, and nothing else set |
| Messages.QueryOnTheWire | src/packet.rs:60-67 | the bytes of a fresh query: id, only RD set, one question, the written name, the type number and the class IN |
| ByteOrder.SortedUnique | src/dnssec.rs:840-848 | byte strings have only one sorted arrangement |
| ByteOrder.LeqIsLex | src/dnssec.rs:844 | the order is lexicographic: a prefix, or smaller at the first difference |
| Canonical.NameToWire | src/dnssec.rs:794-813 | lower-casing label by label in the buffer gives the wire form of the lower-cased labels |
| Canonical.CanonicalNameFolds | src/dnssec.rs:794-813 | names that differ only in case have one canonical form, escapes included |
| Canonical.EncodersAgree | src/dnssec.rs:855-976 | the canonical encoder and `DnsRecord::write` agree byte for byte on every non-RRSIG record with normal-form names that `write` accepts |
| Canonical.RrsigHasNoCanonicalRdata | src/dnssec.rs:878-976 | for RRSIG they differ by the whole RDATA |
| Canonical.BuildSignedData | src/dnssec.rs:815-853 | computes the signed bytes, the records sorted |
| Canonical.PrefixIsRdataLessSignature | src/dnssec.rs:815-836 | the signed bytes begin with the RRSIG's wire RDATA less the signature |
| Canonical.SignedDataIs | src/dnssec.rs:815-853 | behind that prefix lie the canonical forms of all records, each with the original TTL, one after the other in ascending order (section 3.1.8.1 of RFC 4034) |
| Canonical.SignedDataInvariant | src/dnssec.rs:815-853 | any permutation of the RRset, any change of current TTLs and of letter case in names leaves the signed bytes alone |
| Canonical.SignedDataOfFoldedSignature | src/dnssec.rs:815-836 | so does a change of case in the signer's name, of the signature and of the RRSIG's own TTL |
| Canonical.SignedDataIff | src/dnssec.rs:794-853 | building the signed bytes does not panic exactly when the signer's name and every name in the canonical records fit the buffer |
| KeyEncoding.RsaKeyDecodes | src/dnssec.rs:660-730 | None exactly on malformed keys, else strict DER of two minimal non-negative INTEGERs, the big-endian modulus and exponent |
| Dnssec.ComputeKeyTag | src/dnssec.rs:596-615 | the byte loop computes the sum of 16-bit words with one carry folded, and never overflows 32 bits |
| Dnssec.KeyTagIs | src/dnssec.rs:596-615 | the tag is the sum of the words of the RDATA with the carries added in once (Appendix B of RFC 4034) |
| Dnssec.TimeIsWindow | src/dnssec.rs:998-1008 | for times below 2^31 a signature is valid exactly from 300 s before its inception to its expiration |
| Dnssec.ExpirationIsSerial | src/dnssec.rs:1006-1007 | at any time it is unexpired exactly while the expiration is less than 2^31 s ahead, modulo 2^32 |
| Dnssec.SlackIsSerialIff | src/dnssec.rs:998-1008 | the inception test is serial arithmetic with 300 s of slack exactly when, short of the wrap, the inception is not half a cycle or more back, and in the last 300 s, when it is not ahead |
| Dnssec.SlackIsNotSerial | src/dnssec.rs:998-1008 | an instance near the wrap that accepts an inception more than eight years ahead |
| Dnssec.SlackIsLost | src/dnssec.rs:998-1008 | and one just before it that rejects an inception 50 s ahead |
| Dnssec.VerifiedByInvariant | src/dnssec.rs:476-511 | a signature's verdict survives reordering, TTL countdown and case changes |
| Dnssec.VerifiedByMeans | src/dnssec.rs:476-511 | a key made a signature only with the same algorithm, its tag, a valid time, and the primitive of that algorithm accepting the signed data and the signature under that key |
| Dnssec.VerifiedInTime | src/dnssec.rs:476-511 | below 2^31 no signature counts more than 300 s before its inception or after its expiration |
| Dnssec.VerifyDsMeans | src/dnssec.rs:732-781 | a DS matches a key only with its tag and algorithm and the SHA-256 or SHA-384 digest, by its digest type, of the zone's name and the key's RDATA |
| Dnssec.SignedIffSomeKeySigns | src/dnssec.rs:513-532 | an RRset is signed exactly when non-empty and some given key made one of the covering signatures |
| Dnssec.SignsMeans | src/dnssec.rs:513-532 | for a type with a number of its own, by an RRSIG over that number and exactly the records of the type |
| Dnssec.ParentIsLabelsIff | src/dnssec.rs:1532-1547 | for every label list, the parent of its text spells the labels after the first exactly when the first holds no dot before its last byte |
| Dnssec.ParentDropsAPiece | src/dnssec.rs:1532-1547 | the parent is the zone less its first dot-separated piece, or less an empty one before a leading dot |
| Dnssec.EscapedDotSplitsAZone | src/dnssec.rs:1532-1547 | an instance where that piece is less than a label: a zone whose first label holds a dot |
| Dnssec.WalkStep | src/dnssec.rs:342-461 | each of the four statuses of one level of the walk, in the vocabulary of chains |
| Dnssec.AnchorIs | src/dnssec.rs:371-373 | an anchor is recognised by its algorithm and public key, and by nothing else |
| Dnssec.SecureIffChain | src/dnssec.rs:342-461 | Secure exactly when at most eleven links lead by `parent_zone` to a key set that holds an anchor and is signed by one, each earlier zone without anchor and not the root, with a DS-matched key signing its keys and a parent key signing its DS set |
| Dnssec.InsecureIffUnsignedDelegation | src/dnssec.rs:342-461 | Insecure exactly when endorsed key sets lead up to a zone with no DS |
| Dnssec.NoAnchorsNeverSecure | src/dnssec.rs:342-461 | without anchors the chain walk never returns Secure |
| Grouping.GroupRrsets | src/dnssec.rs:978-996 | the groups have distinct keys, each holds exactly its records in order, and no non-RRSIG record is missing |
| Grouping.PartitionUnique | src/dnssec.rs:978-996 | any two groupings of the same records have the same groups |
| TypeBitmap.TypeBitmapContains | src/dnssec.rs:1012-1031 | the window scan computes the recursive reading of the bitmap |
| TypeBitmap.BitmapContainsIff | src/dnssec.rs:1012-1031 | on a well-formed bitmap a type is found exactly when its window sets its bit |
| Nsec3.ComputeNsec3Hash | src/dnssec.rs:1100-1123 | the loop applies the salted hash once and then `iterations` times more, refusing other algorithms and more than 500 |
| Nsec3.HashIs | src/dnssec.rs:1100-1123 | the iterated hash of section 5 of RFC 5155, and exactly when there is none |
| Nsec3.DigitsAre | src/dnssec.rs:1125-1191 | the digits are 0 to 9 and A to V in either letter case, with these values |
| Nsec3.Base32HexDecode | src/dnssec.rs:1125-1213 | the bit accumulator yields the whole leading bytes of the number the digits spell, and fails exactly on an invalid digit before `=` |
| Rings.OwnersAreUncovered | src/dnssec.rs:1057-1069 | in any ring of a strict order no owner lies in any gap |
| Rings.GapOf | src/dnssec.rs:1057-1069 | everything else lies in exactly one gap, rings of one owner included |
| NameOrder.OrderIff | src/dnssec.rs:1033-1055 | the comparison is a strict total order up to letter case and empty labels |
| NameOrder.NsecCoversIsGap | src/dnssec.rs:1057-1069 | an NSEC covers a name exactly when the name lies in its gap of that order |
| NameOrder.PlainLabels | src/dnssec.rs:1033-1055 | without escapes the pieces compared are the name's labels |
| NameOrder.PlainOrder | src/dnssec.rs:1033-1055 | and the order is that of section 6.1 of RFC 4034 on them |
| EscapedOrder.OrderIsRfcIff | src/dnssec.rs:1033-1055 | on labels without dots it is that order exactly when the first two lower-cased bytes that differ compare as their escapes do, and the reverse of it otherwise |
| EscapedOrder.EscapesChangeTheOrder | src/dnssec.rs:1033-1055 | an instance of the reverse |
| EscapedOrder.DotsMakeNamesEqual | src/dnssec.rs:1033-1055 | an instance with dots in labels: two different names that compare as equal |
| Pieces.TidyIff | src/dnssec.rs:1033-1055 | the pieces of a name in the reader's form spell it again exactly when no label ends in a dot |
| Denial.NsecNxdomainIsAbsent | src/dnssec.rs:1344-1388 | when all NSECs come from one ring, a Secure NXDOMAIN names no owner; a wildcard it did try is an owner exactly if one of the NSECs is its own |
| Denial.NsecNodataIsPresent | src/dnssec.rs:1389-1413 | a Secure NODATA names an owner whose bitmap lacks the type and CNAME |
| Denial.NsecVerdictsExclude | src/dnssec.rs:1344-1413 | the same NSECs never prove NXDOMAIN and NODATA for one name |
| Denial.NsecNxdomainIff | src/dnssec.rs:1344-1388 | with the whole ring presented, NXDOMAIN is proved for exactly the names that are no owners and whose wildcard, if an owner, is one in the same spelling |
| Denial.TidyNxdomainIff | src/dnssec.rs:1344-1388 | for exactly the names that are no owners, if no owner's label ends in a dot |
| Denial.NsecNodataIff | src/dnssec.rs:1389-1413 | from any part of a ring, NODATA is proved for exactly the presented owners whose bitmap lacks the type and CNAME |
| Denial.TidyNodataIff | src/dnssec.rs:1389-1413 | with the whole ring presented, for exactly the ring's owners lacking them, if no label ends in a dot |
| WildcardDenial.EncloserSettlesWildcard | src/dnssec.rs:1344-1388 | when the zone's own closest encloser is presented, a Secure NXDOMAIN settles its wildcard: an owner exactly if one of the NSECs is its own |
| WildcardDenial.SettledIff | src/dnssec.rs:1057-1069 | presented NSECs tell whether a name is an owner, over every ring they can come from, exactly when one is its own or covers it |
| WildcardDenial.WildcardTypeIff | src/dnssec.rs:1366-1382 | under a Secure NXDOMAIN the zone's wildcard of the encloser tried has the type asked for exactly when a presented NSEC of the wildcard shows it |
| WildcardDenial.WildcardTypeIsNotChecked | src/dnssec.rs:1368-1382 | an NXDOMAIN verdict although the wildcard exists with the type asked for |
| WildcardDenial.NoEncloserNoWildcard | src/dnssec.rs:1368-1382 | an NXDOMAIN verdict without any wildcard tried, although it exists with the type asked for |
| WildcardDenial.HigherEncloserOtherWildcard | src/dnssec.rs:1071-1089 | the same with the wildcard of a higher name tried |
| WildcardDenial.SecureLeavesWildcardOpen | src/dnssec.rs:1344-1388 | one Secure proof, two rings it comes from, the wildcard of the zone's closest encloser in one only |
| Denial.HashCoveredIff | src/dnssec.rs:1220-1241 | the whole hash ring covers exactly the hashes not in the zone |
| Denial.HashNxdomainIff | src/dnssec.rs:1455-1505 | NXDOMAIN by NSEC3 exactly when some ancestor is hashed in the zone while the next closer name and the wildcard are not |
| Denial.HashNxdomainIsAbsent | src/dnssec.rs:1455-1505 | a Secure NXDOMAIN by NSEC3, from any part of the ring, has such an ancestor, and never concerns a name of one label |
| Denial.HashNxdomainIsClosest | src/dnssec.rs:1455-1505 | in a ring that holds whatever lies between two of its names, that ancestor is the closest and the name itself is not hashed in the zone |
| WildcardDenial.HashedNameMayBeDenied | src/dnssec.rs:1455-1505 | an instance where the ring leaves one out: a Secure NXDOMAIN for a name hashed in it |
| Denial.HashNodataIff | src/dnssec.rs:1506-1522 | NODATA by NSEC3 exactly when the name's hash is in the zone without the type and CNAME |
| DenialNames.NeverPanicsIff | src/dnssec.rs:1455-1505 | all names hashed for a proof have a wire form exactly when the whole name and the wildcard below its first ancestor do |
| DenialNames.NeverPanicsOnLabels | src/dnssec.rs:794-813 | for all names in the reader's form: the name has a wire form exactly if it fits, and hashing its ancestors and wildcards panics exactly when the last label ends in a dot, a dot at the end of a label makes it too long with the next, or the result does not fit, a wildcard under a leading dot byte taking one byte more |
| DenialNames.LongNamePanics | src/dnssec.rs:794-813 | an instance that does not fit: a name the reader returns from 4096 bytes |
| DenialValidation.FirstIsFirst | src/dnssec.rs:1259-1275 | the signature tried is the first that matches, and the only one |
| DenialValidation.VerifyAuthorityRrsigs | src/dnssec.rs:1244-1327 | true exactly when there are denial records and the first matching RRSIG of each of their RRsets was made by a cached key |
| DenialValidation.AuthorityMeans | src/dnssec.rs:1244-1327 | then each denial record is in a complete RRset under a signature of the same owner and type, which a cached key of its signer made |
| DenialValidation.ProveNxdomain | src/dnssec.rs:1455-1505 | the loop over precomputed ancestor hashes finds a closest encloser proof exactly when there is one |
| DenialValidation.LinksAre | src/dnssec.rs:1440-1456 | a hash link is the decoded first piece of an NSEC3 record's owner with that record's next hash and bitmap; every record that decodes has one and there are no others |
| DenialValidation.ValidateDenial | src/dnssec.rs:1330-1530 | NSEC before NSEC3, Indeterminate for failing signatures, missing records or unusable hash parameters, else the verdict |
| DenialValidation.SecureNsecDenial | src/dnssec.rs:1330-1415 | in a Secure NSEC denial every NSEC is signed by a cached key of its signer, and the verdict is true of the zone the records come from |
| DenialValidation.SecureHashDenial | src/dnssec.rs:1417-1530 | the same for NSEC3, in terms of hashes |
| DenialTrust.DenialIgnoresChains | src/dnssec.rs:1244-1327 | for a given cache no fetch changes a denial verdict, which takes no anchors |
| DenialTrust.HeadsChainIff | src/dnssec.rs:1284-1320 | the cached key set of a signer heads a chain of trust exactly when the walk from it would be Secure |
| DenialTrust.DenialIsAuthentic | src/dnssec.rs:1244-1327 | if that holds for all cached key sets of the signers, each denial RRset is signed by a key at the head of a chain |
| DenialTrust.SecureDenialWithoutChain | src/dnssec.rs:1330-1415 | a Secure NXDOMAIN with any anchors that do not hold the key, which is cached and fetched alike and heads no chain |
| RrsetValidation.TryVerifyRrsig | src/dnssec.rs:256-337 | the key loop's outcome depends only on whether some fetched key made the signature and on the status of the signer's chain |
| RrsetValidation.VerifyRrset | src/dnssec.rs:239-254 | verified exactly when some signature is, with none of a bogus chain before it |
| RrsetValidation.ValidateResponse | src/dnssec.rs:121-189 | Insecure without RRSIGs; with an answer, Secure only if each answer with a matching RRSIG has an authentic one, Bogus as soon as one has not, and Bogus otherwise only for a bogus chain; the denial verdict without answers |
| RrsetValidation.VerifiedIffAuthentic | src/dnssec.rs:256-337 | a signature counts exactly when a fetched signer key made it and a chain of trust leads from that key set to an anchor |
| RrsetValidation.SecureAnswersAreAuthentic | src/dnssec.rs:121-189 | if the status is Secure, an answer RRset has an authentic signature exactly when it has a matching RRSIG |
| RrsetValidation.NoAnswersAreDenied | src/dnssec.rs:167-186 | without answers the status is the denial verdict on the first question, over all RRSIGs of the message |
| RrsetValidation.SecureResponseDenies | src/dnssec.rs:121-189 | a Secure NXDOMAIN with NSECs of a zone asks for a name the zone does not own, a Secure NODATA for one it owns without the type |
| RrsetValidation.UnmatchedAnswersAreSecure | src/dnssec.rs:121-189 | in every world, if no RRSIG matches any answer, one RRSIG anywhere makes the response Secure |
| RrsetValidation.StraySignatureIsEnough | src/dnssec.rs:121-189 | a family of such responses: any one record and any RRSIG of another owner |
| RrsetValidation.GoodIffAuthentic | src/dnssec.rs:239-337 | without bogus chains, an RRset passes exactly when unsigned or authentic |
| RrsetValidation.MatchesIff | src/dnssec.rs:216-237 | an RRSIG of the owner matches an RRset exactly when its type is canonical and the number covered is that of the type |
| RrsetValidation.OpaqueNamedTypesAreNeverChecked | src/dnssec.rs:216-237 | so none ever matches an opaque record of a named type, and its RRset always passes |
| RrsetValidation.OwnerIsNotCompared | src/dnssec.rs:256-337 | filed under any owner, a signature has the same outcome |
| LooseTrust.AnyZoneCanSign | src/dnssec.rs:256-337 | a world in which the signature of one anchored zone verifies the matching address record of any name |
| LooseTrust.ForeignDsIsSecure | src/dnssec.rs:342-461 | a Secure chain whose child's DS and DNSKEY records are owned by any other name |
| Coalescing.InvHolds | src/ctx.rs:797-872 | every run of any number of callers, with cancelled leaders and followers, keeps the invariant |
| Coalescing.EntryIffGuard | src/ctx.rs:797-872 | a key is in the map exactly while a leader for it holds its guard, and there is at most one such leader |
| Coalescing.GuardRemovesOwnEntry | src/ctx.rs:863-872 | although removal is by key, the entry removed is the leader's own |
| Coalescing.JoinsRunningLeader | src/ctx.rs:797-806 | a follower joins a resolution for its own key that is still running |
| Coalescing.FollowerGetsLeadersAnswer | src/ctx.rs:827-861 | a follower ends with its leader's sections and header but for the id, which is its own; or, if the leader failed or vanished, with SERVFAIL, its own id and questions, and nothing else; the leader itself likewise |
| Coalescing.NoFollowerIsStuck | src/ctx.rs:827-861 | once its leader has ended a follower can take its answer |
| Coalescing.EveryStepIsProgress | src/ctx.rs:814-861 | between arrivals only boundedly many steps happen |
| Coalescing.NoDeadlock | src/ctx.rs:814-872 | while anybody is unfinished some step is possible, and when all are done the map is empty |
| OdohCache.InvHolds | src/odoh.rs:104-159 | every interleaving of `get`, `invalidate`, cancellation and clock ticks keeps the invariant |
| OdohCache.FetchesNeverOverlap | src/odoh.rs:104-143 | between two fetch starts the first has ended, and only one task fetches |
| OdohCache.BackoffIsKept | src/odoh.rs:104-159 | no fetch starts within 60 s of any failure recorded before it |
| OdohCache.NoNeedlessRefetch | src/odoh.rs:104-149 | after a success no fetch starts until that config has expired or `invalidate` was called |
| OdohCache.ReturnedIsFresh | src/odoh.rs:104-143 | a returned config was not expired when its freshness was established |
| OdohCache.FreshIsServed | src/odoh.rs:104-109 | a call that finds a fresh config returns it and changes nothing else |
| OdohCache.MissFetches | src/odoh.rs:104-127 | a call that finds neither a fresh config nor a recent failure takes the lock and fetches |
| OdohCache.FetchIsStored | src/odoh.rs:127-133 | a fetched config is stored and returned and counts for its TTL, but for a week at most |
| OdohCache.FailureBacksOff | src/odoh.rs:134-159 | after a failure every call without a fresh config fails at once for 60 s, and not longer |
| OdohCache.NoDeadlock | src/odoh.rs:104-143 | the lock is never lost: an unfinished call always has a step to wait for |
| Hedging.ForwardWithHedging | src/forward.rs:441-504 | never both branches disabled, never a finished attempt polled, at most two completions, the first success wins, and an error is the primary's before the hedge fired or the earlier of two |
| Hedging.Parallel | src/recursive.rs:640-681 | the same for two attempts started at once, the error always being the first server's |
| Hedging.WarmHedge | src/recursive.rs:682-729 | the same with a delayed second attempt |
| Hedging.SendQueryHedged | src/recursive.rs:619-731 | asks at most two servers and fails only if every one it waited for failed |
| CnameChase.CnameTargetOwned | src/recursive.rs:793-800 | the target is that of a CNAME owned by the name, and there is none only if no answer is such a CNAME |
| CnameChase.ResolveWithCnameChase | src/ctx.rs:257-318 | for every resolver: at most eight sub-resolutions, names distinct ignoring case, each the target of a CNAME of its predecessor in what was gathered and written into a fresh buffer, and the result is the gathered response, a fresh SERVFAIL for a loop or a chain that is too deep, or the panic on a target that does not serialize |
| CnameChase.AccumulatedIs | src/ctx.rs:312-316 | the gathered response is the first one with every hop's answers in order and the last hop's code |
| CnameChase.ComparableIff | src/ctx.rs:281-287 | over all records the reader returns, comparing types agrees with comparing type numbers exactly for the types it parses and for UNKNOWN |
| CnameChase.ComparableSettles | src/ctx.rs:281-287 | for those a response ends the chase exactly when an answer has the number asked for or the code is an error |
| CnameChase.OpaqueTypesNeverSettle | src/ctx.rs:281-287 | for a named type the reader keeps opaque no answer ends the chase |
| CnameChase.SerializesIff | src/ctx.rs:299-303 | the sub-query for a target in the reader's form serializes exactly if its wire form takes at most 4080 bytes |
| CnameChase.ParsedNameThatPanics | src/ctx.rs:299-303 | an instance that does not: a name the reader returns from 4096 bytes |
| CnameChase.UnwritableTargetPanics | src/ctx.rs:276-303 | a chase whose first response sends it to a target that does not serialize panics there, whatever the resolver |
| Recursive.RootLearnsOnlyTheTld | src/recursive.rs:446-459 | at the root a name reveals the text after its last dot, escaped or not, only, and not the type |
| Recursive.OtherwiseTheQuestion | src/recursive.rs:446-459 | below the root, and for a name without a dot past its first byte, the very question is asked |
| Recursive.BudgetEquation | src/recursive.rs:183-351 | the budget satisfies Q(c, r) = 10 + 20 k Q(c, r + 1) + Q(c + 1, 0), with nothing beyond depths 8 and 10 |
| Recursive.ParsedResponsesNameAtMost371 | src/recursive.rs:802-811 | a response read from the buffer never names more than 371 servers, so k = 371 always serves |
| Recursive.Resolver.FindClosestNs | src/recursive.rs:355-403 | the longest suffix of the name at a label boundary whose cached name servers have cached addresses, with all of those, or else the root with its hints |
| Recursive.CachedAre | src/recursive.rs:461-471 | cached addresses are those in the cached A and AAAA answers for the names, and nothing else |
| Recursive.ReferralMoves | src/recursive.rs:438-443 | a referral leads to the owner of the first NS record of the authorities, and without one nowhere else |
| Recursive.NsHostsAre | src/recursive.rs:406-414 | the name servers are the hosts of NS records, and nothing else |
| Recursive.GlueIs | src/recursive.rs:474-487 | glue is every A or AAAA address owned by a name server, in any letter case, and nothing else |
| Recursive.Resolver.OneRound | src/recursive.rs:207-346 | what a round makes of the reply: after an error the same zone and at most two servers later; after a referral the zone of its first NS and, sorted, the servers of its glue, else cached ones of those names, else what their names resolve to; an answer of the type, a negative answer or an empty reply ends the resolution as it is, a CNAME with its target's; and what that costs in queries |
| Recursive.HollowReferralIsTheAnswer | src/recursive.rs:207-346 | an instance: the root's empty reply about `b` becomes the answer for `a.b` |
| Recursive.Resolver.ResolveIterative | src/recursive.rs:183-351 | terminates against all servers and caches although a CNAME hop resets the referral depth; sends at most Q(c, r) hedged queries, the first to the closest zone, none for a cached answer; minimizes every one at the root; and returns a chain of at most nine responses linked by CNAMEs, folded in order, the last one cached or answered. If nothing is known of the name and the root leads to an answer, within ten rounds, past unreachable servers, along referrals with glue or with a server that the root leads to in turn, along CNAMEs, and in any order of servers, the result is that answer |
| Recursive.OneDelegation | src/recursive.rs:183-351 | the root leads to an answer if it delegates the last label with glue and the servers there have an answer of the type |
| Cache.DnsCache.LookupWire | src/cache.rs:78-107 | an entry is served exactly while within its TTL and the stale window |
| Cache.ServedTtl | src/cache.rs:88-100 | the served TTL is the remaining whole seconds or 1; Stale exactly when expired, Fresh exactly with more than a tenth left |
| Cache.ServedAfter | src/cache.rs:88-100 | by age in nanoseconds: the whole seconds left but at least 1, near expiry from nine tenths on, 1 and stale for an hour more, then nothing |
| Cache.InsertThenLookup | src/cache.rs:78-152 | an answer filed and looked up later comes back with its bytes and status, and the TTL and freshness its age leaves of the bounded TTL |
| Cache.DnsCache.InsertWire | src/cache.rs:109-152 | the bytes, status and time are filed over whatever making room left, for the answer's least TTL or the nearer of the two bounds; the count stays exact and within the limit |
| Cache.DnsCache.Remove | src/cache.rs:250-255 | drops exactly the entries under the lower-cased name and keeps the count exact |
| Cache.RemoveMissesCapitals | src/cache.rs:250-255 | an instance: the entry of a name with a capital letter stays |
| Cache.DnsCache.Clear | src/cache.rs:224-227 | leaves nothing |
| Cache.DnsCache.EvictExpired | src/cache.rs:275-284 | in any order of names, exactly the expired entries go, no inner map is left empty, the count does not underflow |
| Cache.DnsCache.EvictStalest | src/cache.rs:287-312 | exactly one entry goes, with the least time left |
| Cache.FindStalest | src/cache.rs:288-302 | the nested scan, in any order, finds an entry with the least time left, and none only in an empty map |
| Cache.EvictionIsFair | src/cache.rs:121-126 | an unexpired entry is evicted only when nothing was expired, and only one with the least time left |
| Cache.RoomIsRoom | src/cache.rs:121-126 | after making room there is room, and nothing but removals happened |
| Cache.DropInner | src/cache.rs:250-284 | the size of the whole is that without a name plus the size of its inner map |
| Zones.BuildZoneMap | src/config.rs:1729-1833 | succeeds exactly on acceptable configurations and files every record under its name and type, in order |
| Zones.NothingLost | src/config.rs:1729-1833 | every configured record is found where it is filed |
| Zones.SpelledIff | src/config.rs:1733-1740 | a record is accepted exactly if its value parses and its domain spells a name without `*`, in any letter case, before any number of dots and perhaps behind `*.`; it is filed under that name with the value and TTL configured |
| Zones.ConfiguredIsAnswered | src/config.rs:1671-1833 | each configured record is answered with its value, type and TTL: an exact one at its name, a wildcard at every name below its own that no exact record and no nearer wildcard takes |
| Zones.ZoneMap.Lookup | src/config.rs:1671-1712 | an exact owner shadows all wildcards, else the longest proper parent with a wildcard answers, else None |
| Zones.AnswersFit | src/config.rs:1671-1712 | every returned record is owned by the name asked and has the type; only from a node that lacks the type is it a CNAME |
| Failover.SortedOk | src/forward.rs:527 | the sort is a permutation in strictly ascending (response time, position), that is, stable |
| Failover.InOrderUnique | src/forward.rs:527 | and the only such list |
| Failover.RttIs | src/forward.rs:46-62 | response times are kept under address and transport; an upstream named by URL counts as 0 ms |
| Failover.AttemptsAre | src/forward.rs:513-535 | the attempts are the primaries below 4000 ms, or all if there is no fallback, once each in that order, and then the fallbacks; there is one unless the pool is empty |
| Failover.ForwardWithFailover | src/forward.rs:537-569 | a prefix of that list is tried up to the first success, with one failure recorded per failed tracked attempt |
| Failover.FailureRecordsAre | src/forward.rs:549-569 | a failure is recorded under address and transport, and not at all for an upstream named by URL |

## Left out

- Sockets, TLS, HTTP, timeouts and the API, proxy, relay and LAN services: I/O with little branching of its own.
- Cryptography: signature checks, SHA-1 and SHA-2 and ODoH sealing are arbitrary functions.
- `wire`, `srtt` and `svcb` are not part of this model: the cache takes the TTL scan as a parameter, failover and resolution take arbitrary response times.
- Real time: the clock is read once per cache operation and per validation; the ODoH model reads it at every step.
- `ODoH::query_through_relay`: its one retry after `invalidate` adds nothing to what is proved of `get` and `invalidate`.
- OdohCache: the three shared fields are state values rather than fields of a class, because every load and store is a step of its own that other tasks may come between.
- Coalescing: likewise; the map alone is a class, and the state machine uses the functions its methods are proved against.
- Header, packet, question and record values are datatypes; what `read` assigns to `self` is returned instead.
- `DnsRecord::write` is one method in the source and one per shape of RDATA here.
- Recursive.Resolver.ResolveIterative: cache writes are not tracked, every later lookup being arbitrary; `resolve_recursive` only copies the query's id, flags and questions onto the result.
- CnameChase.ResolveWithCnameChase: query path, DNSSEC status and transport tags are dropped; a panic in `expect` is reported as `Panicked`.
- Cache.DnsCache.LookupWire: patching id and TTLs into the copied bytes belongs to `wire`; the value to patch is returned.
- Cache.DnsCache.InsertWire: requires `min_ttl <= max_ttl`, without which `clamp` panics.
- RrsetValidation.ValidateResponse: prefetching keys only warms the cache, and the statistics are dropped; where building signed data would panic (`Canonical.SignedDataIff`) the signature verifies nothing.
- Dnssec.SecureIffChain: a fetch is a function of the zone, so a key set that changes between two fetches of one validation is not modelled.
- Expansion of a wildcard by the RRSIG labels field (section 5.3.2 of RFC 4035) is not in the code, so not in the model.
- Parsing of configured types, addresses and MX values; TOML, defaults and file handling.
- Block lists, client policy, rebinding protection, overrides and query logs: single tests of set membership.
- `serialize_with_fallback` and the shaping of responses for clients.

# ASN.1 runtime: a verified model of the codecs

This project models the ASN.1 runtime under `asn1/` (BER/DER, UPER and OER codecs for LTE RRC
messages) in Dafny and proves what its parts are for. Imperative code is modelled by methods and
classes; each of them is proved against a function, and the promises of the code are lemmas about
those functions.

- `BerTag`, `BerLength`, `BerTlv`, `BerHeader`, `BerSkip`, `BerCheckTags`: the BER primitives. TLVs are
  trees that keep the exact T and L octets, so statements cover every accepted form of a length.
- `OctetString`, `OctetStringChunks`, `OctetStringDecoder`, `OctetStringMeaning`, `OctetStringAccepts`,
  `OctetStringWaits`, `OctetStringTags`: the resumable decoder of OCTET STRING and BIT STRING. The state machine
  is a function; the class with the stack of frames refines it. It accepts exactly the encodings of string
  trees, gives the concatenation of their segments, and gives the same however the input is cut.
- `Bits`, `BitWriter`, `BitReader`, `BitStream`: the bit streams as sequences of booleans.
- `Uper`, `UperRoundTrip`, `UperTables`, `UperCodec`, `UperDecoder`, `UperStream`: structural UPER codecs over
  trees of type descriptors, the round trip by induction over those trees, and the imperative codecs.
- `OerSequence`, `OerRoundTrip`, `OerCodec`, `OerMembers`, `OerTypes`: the resumable OER SEQUENCE codec over
  arbitrary member codecs; BOOLEAN, ENUMERATED and SEQUENCE itself as such members; and trees of these types.
- `ByteOrder`, `SetOfDer`, `Integer`, `Real`, `BitString`, `BitStringUper`: canonical encodings and comparisons.
- `ObjectIdentifier`, `OidText`, `IntegerText`, `BitStringText`: binary and textual forms and their parsers.
- `Arith`, `Wrappers`, `Text`, `Base128`, `Base256`: octets, numbers and characters.

Conventions. Octets are integers from 0 to 255; shifts and masks are written as arithmetic, and `|` of
disjoint bits as a sum. Fixed widths are explicit: 32-bit tags and arcs, 64-bit `ssize_t` and `intmax_t`.
Allocation succeeds and output callbacks append to a sequence. `malloc`ed contents are arbitrary.
Doubles are IEEE 754 with rounding to the nearest, ties to even.

Some natural properties are false of the code. The model keeps the code as it is, shows an input and
states the exact condition:

- a UPER list of more than 200 elements is refused by the decoder exactly when some element decoder
  reports no consumed bits (`UperRoundTrip.RoundTrip`); every list of more than 200 NULLs is one
  (`UperRoundTrip.LongNullListRefused`);
- the octets that an OER SEQUENCE reports as consumed with a failure can depend on the chunks; for the sequence
  of one mandatory member they do not exactly when the member decoder cannot fail any more once it
  has taken octets and waits (`OerSequence.SteadyIff`). SEQUENCE { SEQUENCE { BOOLEAN, ENUMERATED } } on
  the octets ff 80 is an input: 0 octets after one call, 1 after two (`OerMembers.FailureUsedDependsOnChunks`);
- an OBJECT IDENTIFIER arc is read correctly exactly when its number fits into 32 bits, and larger
  ones are cut off silently (`ObjectIdentifier.ArcCorrectIffFits`); 90 80 80 80 00 is read as 0
  (`ObjectIdentifier.LargeArcCutOff`);
- the mantissa of a DER REAL is not always in the fewest octets, as section 11.3.1 of X.690 wants it; it starts
  with a zero octet exactly when the number of trailing zero bits of the significand is 5, 6 or 7
  modulo 8 (`Real.Double2real`); 1 + 2^-7 is such a number (`Real.LeadingZeroOctet`);
- octets that denote a normal double are decoded to it exactly when the mantissa alone is below 2^1024
  (`Real.NumberIsDouble`); 81 fc 00 01 and 128 zero octets, which is 2^1024 times 2^-1024, is refused
  (`Real.HugeMantissa`);
- removing trailing zeros from a BIT STRING looks at all octets and is right exactly when the unused
  bits are zero (`BitString.CompactIff`); it is wrong for the octet 01 with one unused bit
  (`BitString.UnusedBitCounts`);
- a string decoder that asks for more octets cannot always make use of them: it gets nowhere whatever follows
  exactly when the current frame is too small for any completion of the header that is waited for
  (`OctetStringWaits.StuckIff`); 24 01 04 is such an input (`OctetStringWaits.EndlessWait`);
- constructed strings whose segments carry the tag of the string type at every depth, as sections 8.6.4 and 8.7.3
  of X.690 want it also for implicitly tagged types, are not always accepted: segments are compared with the entry
  of all_tags for their depth (asn1/OCTET_STRING.c:351-361), so they are accepted exactly when those
  entries are that tag as far as the string is deep (`OctetStringTags.AcceptsStandardIff`); a0 03 04 01 61 is
  refused for [0] IMPLICIT OCTET STRING (`OctetStringTags.StandardRefused`).

## Model

| member | source | states |
|---|---|---|
| `BerTag.BerFetchTag` | asn1/ber_tlv_tag.c:10-58 | the loop computes FetchTag on every input: the tag and its size, more octets wanted, or an error |
| `BerTag.FetchTagStable` | asn1/ber_tlv_tag.c:10-58 | a fetched tag or an error is unchanged by any octets appended to the input |
| `BerTag.FetchTagLocal` | asn1/ber_tlv_tag.c:10-58 | a fetched tag depends only on the octets reported as used |
| `BerTag.TagRoundTrip` | asn1/ber_tlv_tag.c:103-143 | fetching inverts serializing for every 32-bit tag, whatever follows |
| `BerTag.TagSerialize` | asn1/ber_tlv_tag.c:103-143 | returns the exact size needed and writes exactly those octets when the buffer holds them; a smaller buffer loses at most its first octet |
| `Base128.GroupsUnique` | asn1/ber_tlv_tag.c:126-142 | a group sequence is the one written for a number if and only if it is well formed, denotes the number and does not start with an empty group |
| `BerLength.BerFetchLength` | asn1/ber_tlv_length.c:10-65 | the loop computes FetchLength: short, long and indefinite forms, the overflow limit and truncated inputs |
| `BerLength.FetchLengthStable` | asn1/ber_tlv_length.c:10-65 | a fetched length or an error is unchanged by any octets appended |
| `BerLength.FetchLengthLocal` | asn1/ber_tlv_length.c:10-65 | a fetched length depends only on the octets reported as used |
| `BerLength.LengthRoundTrip` | asn1/ber_tlv_length.c:131-167 | fetching inverts serializing for every length up to RSSIZE_MAX, whatever follows |
| `BerLength.LengthMinimal` | asn1/ber_tlv_length.c:131-167 | no accepted L octets for a length are fewer than the serialized ones |
| `BerLength.LengthSerialize` | asn1/ber_tlv_length.c:131-167 | returns the exact size needed and writes exactly those octets, or nothing when the buffer is too small |
| `BerSkip.BerSkipLength` | asn1/ber_tlv_length.c:67-129 | the recursive loop ends on every input, computes Skip and never returns more than the size of the input |
| `BerSkip.SkipStable` | asn1/ber_tlv_length.c:67-129 | a skip that succeeded or failed is unchanged by any octets appended |
| `BerSkip.SkipWellFormed` | asn1/ber_tlv_length.c:67-129 | every well-formed L and V, of any depth and mix of length forms, is skipped exactly, whatever follows |
| `BerSkip.SkipSound` | asn1/ber_tlv_length.c:67-129 | what was skipped is a well-formed L and V that ends where the result says |
| `BerHeader.HeaderStable` | asn1/ber_decoder.c:139-205 | T and L read together do not depend on what follows |
| `BerCheckTags.BerCheckTags` | asn1/ber_decoder.c:16-283 | computes Check for every tag mode, last form and saved step: code, new step, last length and form, and the consumed octets, which are 0 when a call without a context does not succeed |
| `BerCheckTags.SingleTag` | asn1/ber_decoder.c:64-283 | for a single tag the check is reading one header and comparing its tag, and consumes nothing unless it succeeds |
| `BerCheckTags.DefiniteChainIff` | asn1/ber_decoder.c:139-282 | without a saved context a definite-length chain is accepted if and only if tags and forms are those of the type and each TLV exactly fills the one around it; consumed plus last length is then the outermost size |
| `BerCheckTags.OpenChainIff` | asn1/ber_decoder.c:139-282 | without a saved context a chain with an indefinite length is accepted if and only if all lengths are indefinite and tags and forms are those of the type; exactly the headers are consumed and the last length is minus their number |
| `OctetString.Pop` | asn1/OCTET_STRING.c:272-289 | in a well-nested stack the finished frame always fits its parent, so the failure at line 276 never happens, and nesting is kept |
| `OctetString.Open` | asn1/OCTET_STRING.c:382-414 | a new frame keeps the stack well nested or is refused |
| `OctetString.DoStep` | asn1/OCTET_STRING.c:218-501 | every step of every reachable state keeps the nesting invariant, stays within the input and uses octets or lowers the rank |
| `OctetString.Run` | asn1/OCTET_STRING.c:186-535 | a call ends on every input and uses no more octets than there are |
| `OctetStringChunks.StepStable` | asn1/OCTET_STRING.c:218-501 | a step that does not wait does the same before more input |
| `OctetStringChunks.Resume` | asn1/OCTET_STRING.c:186-535 | a call that asks for more, followed by a call on the rest, is one call on both parts |
| `OctetStringChunks.ChunkIndependence` | asn1/OCTET_STRING.c:186-535 | for every input and every way to cut it the final code, contents, unused bits and octets used are those of one call on everything |
| `OctetStringMeaning.BodyRun` | asn1/OCTET_STRING.c:250-465 | the V of a string tree is read exactly and its leaves are added in order, in every stack that has room |
| `OctetStringMeaning.Meaning` | asn1/OCTET_STRING.c:186-535 | every string tree of any nesting and mix of length forms is consumed exactly, whatever follows, and gives the concatenation of its primitive leaves, with the last unused-bits octet of a BIT STRING |
| `OctetStringAccepts.FrameOnly` | asn1/OCTET_STRING.c:250-465 | whatever an open frame is filled with before acceptance is a list of matching TLVs that ends where the frame ends |
| `OctetStringAccepts.AcceptsOnly` | asn1/OCTET_STRING.c:186-535 | every accepted input starts with the encoding of a string tree, of which exactly the octets were used and the meaning was returned |
| `OctetStringWaits.RunWaits` | asn1/OCTET_STRING.c:186-535 | a call that asks for more leaves a state and octets on which the same call waits again without using anything |
| `OctetStringWaits.HeaderFill` | asn1/OCTET_STRING.c:263-315 | if some octets of a given number complete a header or make it a bad one, then zeros or 255s do |
| `OctetStringWaits.StuckIff` | asn1/OCTET_STRING.c:186-535 | a call that asks for more gives the same answer whatever follows if and only if the current frame has a size and neither zeros nor 255s up to its end complete or spoil the header |
| `OctetStringWaits.EndlessWait` | asn1/OCTET_STRING.c:263-315 | 24 01 04 followed by any octets uses two octets and asks for more |
| `OctetStringTags.StringUnique` | asn1/OCTET_STRING.c:186-535 | no octets start with the encodings of two different strings, even of different types |
| `OctetStringTags.AcceptsStandardIff` | asn1/OCTET_STRING.c:341-376 | a string whose segments carry one tag at every depth is accepted if and only if its unused-bits octets make sense and the entries of all_tags are that tag as far as it is deep |
| `OctetStringTags.StandardRefused` | asn1/OCTET_STRING.c:341-376 | a0 03 04 01 61 is such a string of an implicitly tagged type, and is refused whatever follows |
| `OctetStringDecoder.StringDecoder.AppendOctets` | asn1/OCTET_STRING.c:96-123 | appends to the contents and doubles the capacity until it exceeds the size |
| `OctetStringDecoder.StringDecoder.AddFrame` | asn1/OCTET_STRING.c:146-175 | pushes a frame, reusing an old one when there is one |
| `OctetStringDecoder.StringDecoder.PopFrame` | asn1/OCTET_STRING.c:272-289 | accounts the current frame to its parent as Pop does |
| `OctetStringDecoder.StringDecoder.ReadExpectation` | asn1/OCTET_STRING.c:250-418 | one turn of the loop over expectations is ExpectStep |
| `OctetStringDecoder.StringDecoder.ReadContent` | asn1/OCTET_STRING.c:429-465 | phase 2 is ContentStep |
| `OctetStringDecoder.StringDecoder.ReadPrimitive` | asn1/OCTET_STRING.c:467-500 | phase 3 is PrimitiveStep |
| `OctetStringDecoder.StringDecoder.Decode` | asn1/OCTET_STRING.c:186-535 | a call on the object computes Run: code, octets used, contents, unused bits, and unless it failed the whole context |
| `BitWriter.BitOutp.PutFewBits` | asn1/asn_bit_data.c:192-277 | for every offset and 0 to 31 bits the bits written so far are extended by the field, within the 32-octet window; other counts are refused |
| `BitWriter.BitOutp.PutManyBits` | asn1/asn_bit_data.c:284-310 | extends the bits written so far by the first nbits bits of the source |
| `BitWriter.BitOutp.AlignedFlush` | asn1/asn_bit_data.c:314-332 | the octets put out are all bits ever written, filled up with zeros, and flushed_bytes counts them |
| `BitReader.BitData.Contiguous` | asn1/asn_bit_data.c:15-33 | the stream holds exactly the first size bits |
| `BitReader.BitData.GetFewBits` | asn1/asn_bit_data.c:63-142 | for every offset and 0 to 31 bits returns the next bits as a number and moves over them, else -1 without moving |
| `BitReader.BitData.Undo` | asn1/asn_bit_data.c:50-57 | puts the bits before the current position back in front of the remaining ones, or changes nothing when the buffer has no longer that many |
| `BitReader.BitData.GetThenUndo` | asn1/asn_bit_data.c:50-142 | reading bits and stepping back over them leaves the remaining bits and the moved count as they were |
| `BitReader.BitData.GetManyBits` | asn1/asn_bit_data.c:148-186 | the next bits, left- or right-aligned in zero-filled octets; fails exactly when there are too few |
| `BitStream.WriteThenRead` | asn1/asn_bit_data.c:148-332 | a field and a run of bits written at any offset and flushed are read back |
| `UperCodec.EncodeUper` | asn1/constr_SEQUENCE.c:1690-1801 | the encoders write exactly the bits of Encode onto the stream for every type tree, or refuse exactly when it does |
| `UperCodec.EncodeSequence` | asn1/constr_SEQUENCE.c:1690-1801 | extension bit, presence bitmap in the order of oms and root members, leaving out defaults |
| `UperCodec.EncodeChoice` | asn1/constr_CHOICE.c:1112-1203 | extension bit, canonical index and the chosen alternative |
| `UperCodec.EncodeSequenceOf` | asn1/constr_SEQUENCE_OF.c:190-271 | extension bit, size field and elements |
| `UperCodec.EncodeEnumerated` | asn1/NativeEnumerated.c:192-260 | extension bit and index of a root value found in the sorted table |
| `UperCodec.EncodeBoolean` | asn1/BOOLEAN.c:368-382 | one bit |
| `UperDecoder.DecodeUper` | asn1/constr_SEQUENCE.c:1411-1522 | the decoders compute Decode on every stream: value, consumed count and remaining bits, starved or failed |
| `UperDecoder.DecodeSequence` | asn1/constr_SEQUENCE.c:1411-1522 | the bitmap is read into a stream of its own and drives the root members |
| `UperDecoder.DecodeChoice` | asn1/constr_CHOICE.c:1025-1109 | the index, the lookups and the alternative; a lookup outside the tables, which nothing in the code tests, is the outcome Outside |
| `UperDecoder.DecodeSequenceOf` | asn1/constr_SET_OF.c:1130-1222 | size field and elements, with the limit on long lists |
| `UperDecoder.DecodeEnumerated` | asn1/NativeEnumerated.c:124-190 | the index and the lookup; one outside the table, which nothing in the code tests, is the outcome Outside |
| `UperDecoder.DecodeBoolean` | asn1/BOOLEAN.c:334-366 | one bit |
| `UperRoundTrip.BitmapFollowsMembers` | asn1/constr_SEQUENCE.c:1724-1745 | the bitmap written in the order of oms is the sequence of presence bits that the decoder asks for member by member |
| `UperRoundTrip.RoundTrip` | asn1/constr_SEQUENCE.c:1411-1801 | for every well-formed type tree and every value encoded within the roots, decoding the encoding followed by any bits gives the value with defaults filled in and leaves those bits, unless the limit on long lists applies, and then it fails |
| `UperRoundTrip.LongNullListRefused` | asn1/constr_SET_OF.c:1196-1202 | every list of more than 200 NULLs is encoded but not decoded |
| `UperTables.DecodeStaysInside` | asn1/constr_CHOICE.c:1025-1109 | with complete descriptor tables no bit stream makes the decoders read outside them |
| `UperTables.EncodeStaysInside` | asn1/constr_CHOICE.c:1112-1203 | with complete descriptor tables no value makes the encoders read outside them |
| `UperStream.Transmit` | asn1/constr_SEQUENCE.c:1411-1801 | encoding onto a stream, flushing and decoding the octets gives the value with defaults filled in, in the fewest octets for its bits |
| `OerCodec.SequenceDecoder.DecodeRoot` | asn1/constr_SEQUENCE_oer.c:150-252 | the loop over root members with its saved step computes Root |
| `OerCodec.SequenceDecoder.Decode` | asn1/constr_SEQUENCE_oer.c:121-252 | a call on the saved context computes Run |
| `OerCodec.EncodeOer` | asn1/constr_SEQUENCE_oer.c:395-486 | preamble and members as Encode says, or failure exactly when a mandatory member is missing or cannot be encoded |
| `OerSequence.ChunkIndependence` | asn1/constr_SEQUENCE_oer.c:121-252 | if the member decoders can be resumed, every chunking of every input ends with the code of one call on everything and, unless it failed, with its structure and octets used; after a failure the octets used too if no member decoder that took octets and waits can still fail |
| `OerSequence.SteadyIff` | asn1/constr_SEQUENCE_oer.c:196-226 | the sequence of a mandatory member reports the same octets for every chunking of every input if and only if its decoder cannot fail once it took octets and waits |
| `OerSequence.BitsReadOnce` | asn1/constr_SEQUENCE_oer.c:150-200 | the presence bits still to be read are always those of the members not yet entered |
| `OerRoundTrip.RoundTrip` | asn1/constr_SEQUENCE_oer.c:121-486 | if the member codecs invert up to defaults, decoding the encoding followed by anything gives the values with defaults filled in and uses exactly the encoding |
| `OerMembers.DecodeEnumeratedOer` | asn1/NativeEnumerated_oer.c:33-96 | short and long form, refused lengths and truncated inputs as DecodeEnumerated says |
| `OerMembers.EncodeEnumeratedOer` | asn1/NativeEnumerated_oer.c:102-147 | the loop from the last octet gives the short form or the shortest two's-complement octets with their count |
| `OerMembers.LeafCodecs` | asn1/NativeEnumerated_oer.c:13-147 | the BOOLEAN and ENUMERATED codecs can be resumed, invert and cannot fail after a wait that took octets |
| `OerMembers.SequenceResumable` | asn1/constr_SEQUENCE_oer.c:87-252 | a sequence of resumable members is a resumable member of another sequence |
| `OerMembers.SequenceInverts` | asn1/constr_SEQUENCE_oer.c:87-486 | a sequence of resumable members that invert is a member that inverts, up to the defaults that are filled in |
| `OerMembers.FailureUsedDependsOnChunks` | asn1/constr_SEQUENCE_oer.c:213-226 | a nested sequence and two octets for which a failure reports 0 octets after one call and 1 after two |
| `OerTypes.RoundTrip` | asn1/constr_SEQUENCE_oer.c:87-486 | for every tree of SEQUENCE, BOOLEAN and ENUMERATED types decoding the encoding of a value followed by anything gives the value with defaults filled in at every depth and uses exactly the encoding |
| `OerTypes.ChunkIndependence` | asn1/constr_SEQUENCE_oer.c:87-252 | for every such tree, every input and every way to cut it the code is that of one call, and unless it failed so are the memory with all nested contexts and the octets used |
| `OerTypes.Arrives` | asn1/constr_SEQUENCE_oer.c:87-486 | an encoding that arrives in any pieces gives the value with defaults filled in |
| `OerTypes.FillsIn` | asn1/constr_SEQUENCE_oer.c:160-196 | the value that comes back is the one sent with every absent member, at every depth, set to its default |
| `ByteOrder.CmpZero` | asn1/constr_SET_OF.c:312-337 | the comparison is 0 exactly for equal encodings |
| `ByteOrder.CmpSwap` | asn1/constr_SET_OF.c:312-337 | the comparison is antisymmetric and total |
| `ByteOrder.CmpTransitive` | asn1/constr_SET_OF.c:312-337 | the comparison is transitive |
| `SetOfDer.CmpIsPadded` | asn1/constr_SET_OF.c:312-337 | ascending in this order is ascending in the order of section 11.6 of X.690, which pads with zero octets |
| `SetOfDer.ElBuffer.AddBytes` | asn1/constr_SET_OF.c:278-302 | appends to the contents within the grown capacity |
| `SetOfDer.EncodeSorted` | asn1/constr_SET_OF.c:356-414 | the encodings of all elements, in ascending order, none lost or added |
| `SetOfDer.EncodeDer` | asn1/constr_SET_OF.c:421-498 | header and sorted encodings; the octets put out are as many as announced; fails exactly when an element does |
| `SetOfDer.SortedUnique` | asn1/constr_SET_OF.c:356-414 | there is only one ascending arrangement of given encodings |
| `SetOfDer.Canonical` | asn1/constr_SET_OF.c:421-498 | permuted element encodings have one and the same SET OF encoding |
| `SetOfDer.EncodingsPermuted` | asn1/constr_SET_OF.c:356-414 | permuted lists of elements fail together or have permuted encodings |
| `SetOfDer.EncodeBoth` | asn1/constr_SET_OF.c:421-498 | the encoder returns the same size and the same octets for lists that are permutations of each other |
| `Integer.SkipSuperfluous` | asn1/INTEGER.c:79-117 | the loop removes exactly the superfluous leading octets |
| `Integer.StripValue` | asn1/INTEGER.c:79-117 | stripping keeps the two's-complement value |
| `Integer.StripShortest` | asn1/INTEGER.c:79-117 | no octet string of the same value is shorter |
| `Integer.StripUnique` | asn1/INTEGER.c:79-117 | octet strings of the same value are stripped to the same octets |
| `Integer.Convert` | asn1/INTEGER.c:1441-1458 | filling the 64-bit register gives the value of up to eight octets |
| `Integer.Integer2imax` | asn1/INTEGER.c:1461-1509 | succeeds exactly when the value of an arbitrarily long octet string fits into 64 signed bits, and returns it |
| `Integer.Imax2integer` | asn1/INTEGER.c:1571-1623 | the unique shortest octets for every 64-bit number |
| `Integer.ThereAndBack` | asn1/INTEGER.c:1461-1623 | converting a 64-bit number to octets and back gives the number |
| `Real.OddMantissa` | asn1/REAL.c:840-894 | the scratch pad shifted in place holds an odd mantissa which, with the adjusted exponent, is exactly the double |
| `Real.EncodeExponent` | asn1/REAL.c:896-923 | the two's-complement exponent in the fewest octets |
| `Real.Double2real` | asn1/REAL.c:775-941 | the contents octets denote exactly the normal double, in base 2, unscaled, with odd mantissa and shortest exponent; the mantissa has no leading zero octet if and only if the trailing zeros of the significand are below 5 modulo 8 |
| `Real.LeadingZeroOctet` | asn1/REAL.c:862-896 | a double for which there is a leading zero octet |
| `Real.Real2double` | asn1/REAL.c:684-768 | every binary form is split into sign, mantissa, base, scale and exponent, or refused; the mantissa is added up with rounding, scaled, and refused exactly when a step is not finite |
| `Real.GatherExactIff` | asn1/REAL.c:742-747 | the mantissa added up octet by octet is the one encoded if and only if a finite double can hold that |
| `Real.NearestError` | asn1/REAL.c:742-747 | each addition is off by at most half a unit of the last place |
| `Real.NumberIsDouble` | asn1/REAL.c:684-768 | octets that denote a normal double, in any base and scale, are decoded to that double if the mantissa is below 2^1024 and refused else |
| `Real.HugeMantissa` | asn1/REAL.c:684-768 | the octets 81 fc 00 01 and 128 zeros denote 1, and the decoder returns -1 |
| `Real.DoubleIsGathered` | asn1/REAL.c:742-764 | whatever the mantissa, a normal double that comes out is the gathered mantissa times the power, exactly: only gathering rounds |
| `Real.DoubleIsNumber` | asn1/REAL.c:684-768 | a normal double that comes out is the number encoded if and only if gathering did not round the mantissa |
| `Real.DoubleRoundTrip` | asn1/REAL.c:684-941 | decoding the encoding of a normal double gives the double |
| `ObjectIdentifier.GetSingleArc` | asn1/OBJECT_IDENTIFIER.c:111-136 | the loop computes SingleArc with its 32-bit accumulator |
| `ObjectIdentifier.ArcCorrectIffFits` | asn1/OBJECT_IDENTIFIER.c:111-136 | the arc read is the number encoded if and only if that fits into 32 bits |
| `ObjectIdentifier.LargeArcCutOff` | asn1/OBJECT_IDENTIFIER.c:121-124 | the octets of the arc 2^32 are read as 0 |
| `ObjectIdentifier.ArcRoundTrip` | asn1/OBJECT_IDENTIFIER.c:346-375 | reading inverts writing for every 32-bit arc, whatever follows |
| `ObjectIdentifier.SetSingleArc` | asn1/OBJECT_IDENTIFIER.c:346-375 | at most five groups, built from the end of the scratch pad, or refusal when they do not fit |
| `ObjectIdentifier.SetArcs` | asn1/OBJECT_IDENTIFIER.c:378-463 | succeeds exactly when the first two arcs are admissible; the estimated buffer always suffices |
| `ObjectIdentifier.GetArcs` | asn1/OBJECT_IDENTIFIER.c:287-339 | returns the true count and stores as many arcs as there are slots, for every slot count |
| `ObjectIdentifier.OidRoundTrip` | asn1/OBJECT_IDENTIFIER.c:88-463 | reading inverts writing for every admissible list of 32-bit arcs |
| `OidText.StrToUMax` | asn1/INTEGER.c:1821-1872 | every outcome of the number scanner and where it stops; the range error exactly for numbers above the 64-bit maximum, at the digit that exceeds it |
| `OidText.ParseArcs` | asn1/OBJECT_IDENTIFIER.c:466-583 | the scan computes Parse, counts all arcs, stores as many as there is room for and reports where it stopped |
| `OidText.StopMeans` | asn1/OBJECT_IDENTIFIER.c:466-583 | an accepted text is read to its end; a refused one is refused at a character, or at its end after a dot |
| `OidText.ParseAccepts` | asn1/OBJECT_IDENTIFIER.c:466-583 | dotted numerals of 32-bit numbers between blanks are read as those numbers |
| `OidText.ParseAcceptsOnly` | asn1/OBJECT_IDENTIFIER.c:466-583 | no other text is read as a non-empty list of arcs |
| `OidText.DumpBody` | asn1/OBJECT_IDENTIFIER.c:140-189 | prints the arcs of the contents in decimal with dots, or fails exactly when they cannot be read; no piece overruns the scratch pad |
| `OidText.TextRoundTrip` | asn1/OBJECT_IDENTIFIER.c:140-583 | parsing the printed text gives the same arcs |
| `IntegerText.XerBodyDecode` | asn1/INTEGER.c:351-584 | the scanner ends on every text, rewinds at most once, never writes beyond a third of the text and one octet, and computes Scan |
| `IntegerText.HexAccepted` | asn1/INTEGER.c:351-584 | pairs of hexadecimal digits between colons, in either case and with blanks around, are read as their octets if a colon or a letter tells them from a decimal number |
| `IntegerText.HexAcceptedOnly` | asn1/INTEGER.c:351-584 | nothing else is read in the hexadecimal form |
| `IntegerText.DumpHex` | asn1/INTEGER.c:185-205 | prints the pairs with colons between them through the flushed scratch pad |
| `IntegerText.HexRoundTrip` | asn1/INTEGER.c:185-584 | the printed octets are read back if and only if there are two of them or one with a letter |
| `IntegerText.LargeRoundTrip` | asn1/INTEGER.c:185-584 | every value beyond 64 bits survives printing and reading |
| `BitString.BitsAfterLast` | asn1/BIT_STRING.c:293-301 | isolating the lowest bit and three masks give the number of trailing zero bits |
| `BitString.Compactify` | asn1/BIT_STRING.c:278-313 | the backward scan computes Compact |
| `BitString.CompactTrims` | asn1/BIT_STRING.c:278-313 | compacting is removing the trailing zero bits of all octets |
| `BitString.CompactIff` | asn1/BIT_STRING.c:278-313 | compacting trims the string itself if and only if its unused bits are zero |
| `BitString.UnusedBitCounts` | asn1/BIT_STRING.c:278-313 | a string with an unused bit that is set, which compacting does not trim |
| `BitString.Compare` | asn1/BIT_STRING.c:320-363 | the comparison is that of the bits as if both strings went on with zeros |
| `BitString.BitCmpTransitive` | asn1/BIT_STRING.c:320-363 | that order is transitive |
| `BitString.BitCmpSwap` | asn1/BIT_STRING.c:320-363 | that order is total: swapping the strings negates the result |
| `BitString.EqualIff` | asn1/BIT_STRING.c:320-363 | the result is 0 if and only if the strings agree without trailing zero bits |
| `BitStringUper.EncodeUper` | asn1/BIT_STRING.c:484-579 | for a size constraint writes the extension bit, the length field and the trimmed bits filled up with zeros to the lower bound; fails exactly when the structure is malformed or the trimmed bits exceed an upper bound that cannot be extended; for one that can the extension bit 1 is written and the outcome is Extension |
| `BitStringUper.DecodeUper` | asn1/BIT_STRING.c:420-478 | after the extension bit reads the announced number of bits into octets with zero unused bits, or asks for more |
| `BitStringUper.RoundTrip` | asn1/BIT_STRING.c:380-579 | a string with zero unused bits comes back within the size constraint and compares equal |
| `BitStringText.BinaryString.ConvertBinary` | asn1/OCTET_STRING.c:980-1037 | appends the bits of a text of 0, 1 and spaces, wherever the last chunk left off and whatever the new memory holds; fails exactly on other characters |
| `BitStringText.TextBitsSum` | asn1/OCTET_STRING.c:980-1037 | where a text is cut makes no difference to its bits |
| `BitStringText.ConvertAll` | asn1/OCTET_STRING.c:980-1037 | a text fed in any chunks ends with the bits and unused bits of the whole text |
| `BitStringText.EncodeXer` | asn1/BIT_STRING.c:98-153 | the text stands for the bits of the string, with any indentation; the canonical text is those bits and nothing else |
| `BitStringText.XerRoundTrip` | asn1/BIT_STRING.c:98-153 | converting the printed text, cut in any way, gives the string back |

## Left out

- FAPI headers and scheduler: structure layouts, constants and an array lookup, which would only add easy members.
- Failing allocation, failing output callbacks and the stack overflow check.
- The integer range checks of the buffer macro at asn1/OCTET_STRING.c:101-113: sizes are unbounded here.
- OctetString.Run: types with one entry in tags only, with tag modes 0 and -1 and without the ANY variant.
- OctetStringMeaning.Meaning: all_tags is not empty and does not hold the universal tag 0, which marks the end of contents.
- OctetStringAccepts.AcceptsOnly: likewise only for such all_tags.
- OctetStringDecoder.StringDecoder.Decode: after a failure only the code, the contents, the unused bits and the octets used are stated, not the frames.
- Resuming the tag check in the middle of a chain of several tags: the source does not save the limit and the count of terminators.
- The refill callback of the bit reader.
- UperRoundTrip.RoundTrip: extension additions and values outside the extension root end in the outcomes EncodeBeyond and DecodeBeyond, which are not followed further; nor are lists without a size constraint.
- UperDecoder.DecodeChoice: what a lookup outside the tables finds is not modelled; UperTables shows when there is none.
- UperDecoder.DecodeEnumerated: likewise.
- UperTables.DecodeStaysInside: the condition on the tables is sufficient, not necessary; incomplete tables that no bit stream reaches do no harm.
- UperTables.EncodeStaysInside: likewise.
- OctetStringWaits.StuckIff: decides whether further octets change anything, not whether some are accepted in the end.
- OerTypes.ChunkIndependence: the octets reported with a failure depend on the cuts for nested types, as OerSequence.SteadyIff says.
- APER, XER and GSER of the constructed types, and open types.
- OerSequence.ChunkIndependence: non-extensible sequences only.
- OerMembers.DecodeEnumeratedOer: types without field_unsigned.
- SetOfDer.EncodeDer: the header is an arbitrary function of the size, and qsort is an insertion sort of which only the sorted permutation is used.
- Real.Real2double: results below the normal range are the outcome Tiny, which is finite and not given in detail; that adding up octet by octet finds the nearest double is not claimed.
- Real.Double2real: normal non-zero doubles only; zeros, infinities, NaN, subnormal numbers and the decimal forms are left out.
- IntegerText.XerBodyDecode: no enumeration map, and the conversion of decimal digits is handed over as the outcome DecimalText.
- BitStringUper.EncodeUper: constraints with at most 16 effective bits; sizes outside the extension root end in the outcome Extension, and unconstrained sizes are left out.
- BitStringUper.DecodeUper: likewise, and into a fresh structure.
- BitStringText.BinaryString.ConvertBinary: after a failure nothing is stated about the structure.
- The algorithms of memcmp, bsearch and printf: they are modelled by their results.
- Random filling, printing for people, freeing and debug output.
